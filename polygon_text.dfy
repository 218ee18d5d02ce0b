/** The polygon text format of the day_9 software reference
    (`parse_polygon_text` in day_9/software_reference/max_rectangle_finder.py):
    the text is stripped of surrounding white space and split at line feeds;
    each line is stripped, an empty line ends the polygon, a line without a
    comma is skipped, and a line with a comma must split into exactly two
    parts, each a Python integer literal.  A malformed line is an error
    (Python raises `ValueError`), modelled as a `Failure`. */
module PolygonText {
  import opened Wrappers
  import opened RectGeometry
  import opened Registers

  /** The characters Python's `str.strip()` removes: those `str.isspace()`
      accepts. */
  predicate IsSpace(ch: char)
  {
    ch == ' ' || ('\t' <= ch <= '\r') || ('\U{1C}' <= ch <= '\U{1F}') || ch == '\U{85}' || ch == '\U{A0}'
    || ch == '\U{1680}' || ('\U{2000}' <= ch <= '\U{200A}') || ch == '\U{2028}' || ch == '\U{2029}'
    || ch == '\U{202F}' || ch == '\U{205F}' || ch == '\U{3000}'
  }

  predicate IsDigit(ch: char)
  {
    '0' <= ch <= '9'
  }

  /** The text without its leading white space. */
  function TrimLeft(s: string): (t: string)
    ensures |t| <= |s| && t == s[|s| - |t|..]
    ensures forall i :: 0 <= i < |s| - |t| ==> IsSpace(s[i])
    ensures |t| == 0 || !IsSpace(t[0])
  {
    if |s| > 0 && IsSpace(s[0]) then TrimLeft(s[1..]) else s
  }

  /** The text without its trailing white space. */
  function TrimRight(s: string): (t: string)
    ensures |t| <= |s| && t == s[..|t|]
    ensures forall i :: |t| <= i < |s| ==> IsSpace(s[i])
    ensures |t| == 0 || !IsSpace(t[|t| - 1])
  {
    if |s| > 0 && IsSpace(s[|s| - 1]) then TrimRight(s[..|s| - 1]) else s
  }

  /** Python's `str.strip()`. */
  function Strip(s: string): (t: string)
    ensures |t| == 0 || (!IsSpace(t[0]) && !IsSpace(t[|t| - 1]))
  {
    TrimRight(TrimLeft(s))
  }

  /** A text that neither starts nor ends with white space is its own strip. */
  lemma StripUnchanged(s: string)
    requires |s| == 0 || (!IsSpace(s[0]) && !IsSpace(s[|s| - 1]))
    ensures Strip(s) == s
  {
  }

  /** The position of the first separator. */
  function IndexOf(s: string, sep: char): (k: nat)
    requires sep in s
    ensures k < |s| && s[k] == sep && sep !in s[..k]
  {
    if s[0] == sep then 0
    else
      var k := IndexOf(s[1..], sep) + 1;
      assert s[..k] == [s[0]] + s[1..][..k - 1];
      k
  }

  /** Python's `str.split(sep)`: the pieces between the separators, at
      least one, none containing the separator. */
  function Split(s: string, sep: char): (parts: seq<string>)
    ensures |parts| >= 1
    ensures forall i :: 0 <= i < |parts| ==> sep !in parts[i]
    decreases |s|
  {
    if sep !in s then [s]
    else
      var k := IndexOf(s, sep);
      [s[..k]] + Split(s[k + 1..], sep)
  }

  /** The pieces joined with the separator between them. */
  function Join(parts: seq<string>, sep: char): string
    requires |parts| >= 1
  {
    if |parts| == 1 then parts[0] else parts[0] + [sep] + Join(parts[1..], sep)
  }

  /** Joining the pieces gives the text back. */
  lemma {:induction false} JoinSplit(s: string, sep: char)
    ensures Join(Split(s, sep), sep) == s
    decreases |s|
  {
    if sep in s {
      var k := IndexOf(s, sep);
      var rest := Split(s[k + 1..], sep);
      var parts := [s[..k]] + rest;
      assert Split(s, sep) == parts;
      assert parts[0] == s[..k] && parts[1..] == rest;
      assert Join(parts, sep) == s[..k] + [sep] + Join(rest, sep);
      JoinSplit(s[k + 1..], sep);
      assert s == s[..k] + [sep] + s[k + 1..];
    }
  }

  /** Splitting undoes joining pieces that do not contain the separator. */
  lemma {:induction false} SplitJoin(parts: seq<string>, sep: char)
    requires |parts| >= 1
    requires forall i :: 0 <= i < |parts| ==> sep !in parts[i]
    ensures Split(Join(parts, sep), sep) == parts
  {
    if |parts| > 1 {
      var s := Join(parts, sep);
      var k := |parts[0]|;
      assert s[k] == sep;
      assert IndexOf(s, sep) == k;
      assert s[..k] == parts[0];
      assert s[k + 1..] == Join(parts[1..], sep);
      SplitJoin(parts[1..], sep);
    }
  }

  // ---------------------------------------------------------------------------
  // Python's `int()` on a string, base 10.

  function DigitValue(ch: char): (d: nat)
    requires IsDigit(ch)
    ensures d < 10
  {
    (ch - '0') as nat
  }

  function DigitChar(d: nat): (ch: char)
    requires d < 10
    ensures IsDigit(ch) && DigitValue(ch) == d
  {
    ('0' as int + d) as char
  }

  /** The value of a string of decimal digits, most significant first. */
  function DigitsValue(ds: string): (v: nat)
    requires forall i :: 0 <= i < |ds| ==> IsDigit(ds[i])
  {
    if |ds| == 0 then 0 else DigitsValue(ds[..|ds| - 1]) * 10 + DigitValue(ds[|ds| - 1])
  }

  /** A digit string with single underscores between digits, as Python's
      integer literals allow. */
  predicate WellGrouped(body: string)
  {
    |body| > 0 && IsDigit(body[0]) && IsDigit(body[|body| - 1])
    && (forall i :: 0 <= i < |body| ==> IsDigit(body[i]) || body[i] == '_')
    && (forall i, j :: 0 <= i < |body| && 0 <= j < |body| && j == i + 1 ==> !(body[i] == '_' && body[j] == '_'))
  }

  /** The digits of a string, underscores dropped. */
  function Digits(body: string): (ds: string)
    ensures forall i :: 0 <= i < |ds| ==> ds[i] != '_'
    ensures (forall i :: 0 <= i < |body| ==> IsDigit(body[i]) || body[i] == '_') ==>
              forall i :: 0 <= i < |ds| ==> IsDigit(ds[i])
    ensures (forall i :: 0 <= i < |body| ==> body[i] != '_') ==> ds == body
  {
    if |body| == 0 then ""
    else if body[0] == '_' then Digits(body[1..])
    else [body[0]] + Digits(body[1..])
  }

  /** `int(s)`: white space around the literal is allowed. */
  function ParseInt(s: string): (r: Result<int>)
  {
    ParseSigned(Strip(s))
  }

  /** A stripped literal: an optional sign and a well-grouped digit
      string. */
  function ParseSigned(t: string): (r: Result<int>)
  {
    var negative := |t| > 0 && t[0] == '-';
    var body := if |t| > 0 && (t[0] == '-' || t[0] == '+') then t[1..] else t;
    if !WellGrouped(body) then Failure("invalid literal for int() with base 10")
    else
      var magnitude: int := DigitsValue(Digits(body));
      Success(if negative then -magnitude else magnitude)
  }

  /** The decimal digits of a natural number, without leading zeros. */
  function NatToString(n: nat): (s: string)
    ensures |s| > 0 && forall i :: 0 <= i < |s| ==> IsDigit(s[i])
    ensures DigitsValue(s) == n
  {
    if n < 10 then [DigitChar(n)]
    else
      var s := NatToString(n / 10) + [DigitChar(n % 10)];
      assert s[..|s| - 1] == NatToString(n / 10);
      s
  }

  /** Python's `str()` of an integer. */
  function IntToString(x: int): string
  {
    if x < 0 then "-" + NatToString(-x) else NatToString(x)
  }

  /** A decimal numeral is a well-grouped literal without underscores or
      white space at its ends. */
  lemma NatToStringLiteral(n: nat)
    ensures WellGrouped(NatToString(n)) && Digits(NatToString(n)) == NatToString(n)
    ensures !IsSpace(NatToString(n)[0]) && !IsSpace(NatToString(n)[|NatToString(n)| - 1])
  {
    var d := NatToString(n);
    assert forall i :: 0 <= i < |d| ==> d[i] != '_';
  }

  /** `int(str(x)) == x`. */
  lemma ParseIntToString(x: int)
    ensures ParseInt(IntToString(x)) == Success(x)
  {
    var m: nat := if x < 0 then -x else x;
    var d := NatToString(m);
    NatToStringLiteral(m);
    var s := IntToString(x);
    if x < 0 {
      assert s == "-" + d;
      ParseIntLiteral(s, d, true);
    } else {
      ParseIntLiteral(s, d, false);
    }
  }

  /** A literal, `-` and a well-grouped body or the body alone, parses to
      the body's value with that sign. */
  lemma ParseIntLiteral(s: string, body: string, negative: bool)
    requires WellGrouped(body)
    requires if negative then s == "-" + body else s == body
    ensures ParseInt(s) == Success(if negative then 0 - DigitsValue(Digits(body)) else DigitsValue(Digits(body)))
  {
    assert !IsSpace(body[0]) && !IsSpace(body[|body| - 1]);
    if negative {
      assert s[0] == '-' && s[1..] == body && s[|s| - 1] == body[|body| - 1];
    }
    StripUnchanged(s);
    ParseSignedLiteral(s, body, negative);
  }

  lemma ParseSignedLiteral(s: string, body: string, negative: bool)
    requires WellGrouped(body)
    requires if negative then s == "-" + body else s == body
    ensures ParseSigned(s) == Success(if negative then 0 - DigitsValue(Digits(body)) else DigitsValue(Digits(body)))
  {
    if negative {
      assert s[0] == '-' && s[1..] == body;
    } else {
      assert IsDigit(s[0]);
    }
  }

  // ---------------------------------------------------------------------------
  // The parser.

  /** One stripped, non-empty line containing a comma: `x, y = line.split(',')`
      needs exactly two parts, then `int()` of each. */
  function ParseVertex(line: string): (r: Result<Point>)
    ensures r.Success? ==> |Split(line, ',')| == 2
    ensures r.Success? ==> ParseInt(Split(line, ',')[0]) == Success(r.value.x)
                           && ParseInt(Split(line, ',')[1]) == Success(r.value.y)
  {
    var parts := Split(line, ',');
    if |parts| != 2 then Failure("wrong number of values to unpack (expected 2)")
    else match (ParseInt(parts[0]), ParseInt(parts[1]))
      case (Success(x), Success(y)) => Success(Point(x, y))
      case (Failure(e), _) => Failure(e)
      case (_, Failure(e)) => Failure(e)
  }

  /** One line's effect on the result of the lines after it: an empty line
      (after stripping) ends the polygon, a line without a comma is skipped,
      a malformed vertex is the error, and a vertex goes in front. */
  function LineStep(raw: string, rest: Result<seq<Point>>): (r: Result<seq<Point>>)
  {
    var line := Strip(raw);
    if |line| == 0 then Success([])
    else if ',' !in line then rest
    else match ParseVertex(line)
      case Failure(e) => Failure(e)
      case Success(v) => Prepend([v], rest)
  }

  /** The vertices of the lines, read from the first on; the first
      malformed line's error is the result. */
  function ParseLines(lines: seq<string>): (r: Result<seq<Point>>)
    ensures r.Success? ==> |r.value| <= |lines|
  {
    if |lines| == 0 then Success([]) else LineStep(lines[0], ParseLines(lines[1..]))
  }

  /** Vertices already collected, in front of a later result. */
  function Prepend(vs: seq<Point>, r: Result<seq<Point>>): (p: Result<seq<Point>>)
    ensures p.Success? <==> r.Success?
    ensures r.Success? ==> p.value == vs + r.value
  {
    match r
    case Success(rest) => Success(vs + rest)
    case Failure(e) => Failure(e)
  }

  /** Lines after an empty one are never read. */
  lemma {:induction false} ParseLinesStopsAtEmpty(lines: seq<string>, k: nat)
    requires k < |lines| && |Strip(lines[k])| == 0
    ensures ParseLines(lines) == ParseLines(lines[..k + 1])
  {
    var head := lines[..k + 1];
    assert head[0] == lines[0];
    if k > 0 {
      ParseLinesStopsAtEmpty(lines[1..], k - 1);
      assert lines[1..][..k] == head[1..];
    }
  }

  /** `parse_polygon_text`: the loop over the lines of the stripped text,
      appending each vertex and stopping at the first empty line. */
  method ParsePolygonText(text: string) returns (r: Result<seq<Point>>)
    ensures r == ParseLines(Split(Strip(text), '\n'))
  {
    var lines := Split(Strip(text), '\n');
    r := CollectVertices(lines);
  }

  /** The loop of `parse_polygon_text` over the lines. */
  method CollectVertices(lines: seq<string>) returns (r: Result<seq<Point>>)
    ensures r == ParseLines(lines)
  {
    var vertices: seq<Point> := [];
    var i := 0;
    assert lines[0..] == lines;
    PrependNothing(ParseLines(lines));
    while i < |lines|
      invariant i <= |lines|
      invariant ParseLines(lines) == Prepend(vertices, ParseLines(lines[i..]))
    {
      ghost var rest := ParseLines(lines[i + 1..]);
      ParseLinesAt(lines, i);
      var line := Strip(lines[i]);
      if |line| == 0 {
        assert LineStep(lines[i], rest) == Success([]);
        assert vertices + [] == vertices;
        return Success(vertices);
      }
      if ',' in line {
        var v := ParseVertex(line);
        if v.Failure? {
          assert LineStep(lines[i], rest) == Failure(v.error);
          return Failure(v.error);
        }
        assert LineStep(lines[i], rest) == Prepend([v.value], rest);
        PrependTwice(vertices, [v.value], rest);
        vertices := vertices + [v.value];
      } else {
        assert LineStep(lines[i], rest) == rest;
      }
      i := i + 1;
    }
    assert lines[i..] == [] && vertices + [] == vertices;
    return Success(vertices);
  }

  /** The lines from `i` on: line `i`'s step in front of the rest. */
  lemma ParseLinesAt(lines: seq<string>, i: nat)
    requires i < |lines|
    ensures ParseLines(lines[i..]) == LineStep(lines[i], ParseLines(lines[i + 1..]))
  {
    assert lines[i..][1..] == lines[i + 1..];
  }

  lemma PrependNothing(r: Result<seq<Point>>)
    ensures Prepend([], r) == r
  {
    if r.Success? {
      assert [] + r.value == r.value;
    }
  }

  lemma PrependTwice(a: seq<Point>, b: seq<Point>, r: Result<seq<Point>>)
    ensures Prepend(a, Prepend(b, r)) == Prepend(a + b, r)
  {
    if r.Success? {
      assert a + (b + r.value) == (a + b) + r.value;
    }
  }

  // ---------------------------------------------------------------------------
  // The format, written out.

  /** One vertex as the line `x,y`. */
  function VertexLine(v: Point): string
  {
    IntToString(v.x) + "," + IntToString(v.y)
  }

  function VertexLines(vs: seq<Point>): (lines: seq<string>)
    ensures |lines| == |vs|
    ensures forall i :: 0 <= i < |vs| ==> lines[i] == VertexLine(vs[i])
  {
    if |vs| == 0 then [] else [VertexLine(vs[0])] + VertexLines(vs[1..])
  }

  /** The polygon as text: one `x,y` line per vertex, each ended by a line
      feed. */
  function Render(vs: seq<Point>): string
  {
    if |vs| == 0 then "" else Join(VertexLines(vs), '\n') + "\n"
  }

  /** A vertex line parses back to its vertex. */
  lemma ParseVertexLine(v: Point)
    ensures Strip(VertexLine(v)) == VertexLine(v)
    ensures ',' in VertexLine(v) && '\n' !in VertexLine(v)
    ensures ParseVertex(VertexLine(v)) == Success(v)
  {
    VertexLineText(v);
    VertexLineSplit(v);
    ParseIntToString(v.x);
    ParseIntToString(v.y);
  }

  /** A numeral is digits after an optional minus sign: no comma, no line
      feed, no white space at its ends. */
  lemma NumeralChars(x: int)
    ensures var s := IntToString(x);
            |s| > 0 && ',' !in s && '\n' !in s && !IsSpace(s[0]) && !IsSpace(s[|s| - 1])
  {
    var s := IntToString(x);
    assert forall i :: 0 <= i < |s| ==> IsDigit(s[i]) || s[i] == '-';
    assert IsDigit(s[|s| - 1]);
  }

  /** A vertex line has one comma, no line feed and no white space at its
      ends. */
  lemma VertexLineText(v: Point)
    ensures ',' !in IntToString(v.x) && ',' !in IntToString(v.y)
    ensures ',' in VertexLine(v) && '\n' !in VertexLine(v)
    ensures Strip(VertexLine(v)) == VertexLine(v)
  {
    var xs, ys := IntToString(v.x), IntToString(v.y);
    var line := VertexLine(v);
    NumeralChars(v.x);
    NumeralChars(v.y);
    assert line == xs + "," + ys;
    assert line[|xs|] == ',';
    assert line[0] == xs[0] && line[|line| - 1] == ys[|ys| - 1];
    StripUnchanged(line);
  }

  /** A vertex line splits at its comma into the two numerals. */
  lemma VertexLineSplit(v: Point)
    ensures Split(VertexLine(v), ',') == [IntToString(v.x), IntToString(v.y)]
  {
    var xs, ys := IntToString(v.x), IntToString(v.y);
    VertexLineText(v);
    assert VertexLine(v) == Join([xs, ys], ',');
    SplitJoin([xs, ys], ',');
  }

  /** Rendering then parsing gives the vertices back. */
  lemma ParseRender(vs: seq<Point>)
    ensures ParseLines(Split(Strip(Render(vs)), '\n')) == Success(vs)
  {
    if |vs| == 0 {
      assert Split(Strip(""), '\n') == [""];
    } else {
      var lines := VertexLines(vs);
      forall i | 0 <= i < |lines|
        ensures '\n' !in lines[i] && Strip(lines[i]) == lines[i] && ',' in lines[i]
      {
        ParseVertexLine(vs[i]);
      }
      var body := Join(lines, '\n');
      StripRender(lines);
      SplitJoin(lines, '\n');
      ParseVertexLines(vs);
    }
  }

  /** The rendered text strips to the lines joined, the last line feed
      dropped. */
  lemma StripRender(lines: seq<string>)
    requires |lines| >= 1
    requires forall i :: 0 <= i < |lines| ==> Strip(lines[i]) == lines[i] && ',' in lines[i]
    ensures Strip(Join(lines, '\n') + "\n") == Join(lines, '\n')
  {
    var s := Join(lines, '\n');
    JoinEnds(lines, '\n');
    var t := s + "\n";
    assert TrimLeft(t) == t;
    assert t[..|t| - 1] == s;
  }

  /** A join of non-empty pieces starts with the first piece's first
      character and ends with the last piece's last character. */
  lemma {:induction false} JoinEnds(parts: seq<string>, sep: char)
    requires |parts| >= 1 && forall i :: 0 <= i < |parts| ==> |parts[i]| > 0
    ensures var s := Join(parts, sep);
            |s| > 0 && s[0] == parts[0][0] && s[|s| - 1] == parts[|parts| - 1][|parts[|parts| - 1]| - 1]
  {
    if |parts| > 1 {
      JoinEnds(parts[1..], sep);
    }
  }

  /** A vertex line puts its vertex in front of what the later lines give. */
  lemma LineStepVertex(v: Point, rest: Result<seq<Point>>)
    ensures LineStep(VertexLine(v), rest) == Prepend([v], rest)
  {
    ParseVertexLine(v);
  }

  /** Lines each of which contributes one vertex parse to those vertices. */
  lemma {:induction false} ParseLinesAll(lines: seq<string>, vs: seq<Point>)
    requires |lines| == |vs|
    requires forall i, r :: 0 <= i < |lines| ==> LineStep(lines[i], r) == Prepend([vs[i]], r)
    ensures ParseLines(lines) == Success(vs)
  {
    if |vs| > 0 {
      ParseLinesAll(lines[1..], vs[1..]);
      assert ParseLines(lines) == LineStep(lines[0], Success(vs[1..]));
      assert [vs[0]] + vs[1..] == vs;
    }
  }

  /** The vertex lines parse to the vertices. */
  lemma ParseVertexLines(vs: seq<Point>)
    ensures ParseLines(VertexLines(vs)) == Success(vs)
  {
    var lines := VertexLines(vs);
    forall i, r | 0 <= i < |lines|
      ensures LineStep(lines[i], r) == Prepend([vs[i]], r)
    {
      LineStepVertex(vs[i], r);
    }
    ParseLinesAll(lines, vs);
  }
}
