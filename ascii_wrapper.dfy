/** The ASCII front end of the day_9 finder (day_9/impl/ascii_wrapper.py):
    a character-level parser that turns lines `x,y` into vertex beats for
    the finder, and a double-dabble converter that prints the finder's
    `max_area >> 4` in decimal.

    The 8-bit `ascii_in` / `ascii_out` ports carry ASCII characters, modelled
    as `char`. */
module AsciiWrapper {
  import opened RectGeometry
  import opened Registers
  import PolygonText

  datatype WrapperState =
    | Idle | ParseX | ParseY | SendVertex | StartSearch | WaitComplete | AssertStart
    | WaitResult | BcdConvert | SendResult | DoneState

  /** A cycle in which `vertex_valid` is high, with the coordinates and
      `vertex_last`. */
  datatype VertexBeat = VertexBeat(vertex: Point, last: bool)

  /** The parser registers: the FSM state, `accum_x`, `accum_y` and the
      16-bit `vertex_count`. */
  datatype Parser = Parser(state: WrapperState, accumX: nat, accumY: nat, vertexCount: nat)

  const ResetParser := Parser(Idle, 0, 0, 0)

  /** `vertex_count` is a 16-bit register. */
  const CountModulus: nat := 0x1_0000

  /** `ascii_in_ready`: the states that take input. */
  predicate Ready(s: WrapperState)
  {
    s == Idle || s == ParseX || s == ParseY || s == StartSearch
  }

  /** The vertex the finder sees: `accum << 2` in a `coord_width`-bit signal. */
  function Scaled(p: Parser, cw: nat): (v: Point)
    ensures p.accumX < Pow2(cw) / 4 ==> v.x == 4 * p.accumX
    ensures p.accumY < Pow2(cw) / 4 ==> v.y == 4 * p.accumY
  {
    Point(Wrap(4 * p.accumX, Pow2(cw)), Wrap(4 * p.accumY, Pow2(cw)))
  }

  /** `acc * 10 + digit` in a `coord_width`-bit accumulator. */
  function Shifted10(acc: nat, ch: char, cw: nat): nat
    requires PolygonText.IsDigit(ch)
  {
    Wrap(acc * 10 + PolygonText.DigitValue(ch), Pow2(cw))
  }

  /** A cycle in which the wrapper takes `ch` (`ascii_in_valid` and
      `ascii_in_ready`): IDLE skips everything but a digit, which starts the
      x value; PARSE_X accumulates digits until a comma; PARSE_Y accumulates
      digits, skips CR and ends the vertex at LF; START_SEARCH drives the
      held vertex again, with `vertex_last` low when a digit starts the next
      line and high at LF or NUL.  Other characters change nothing. */
  function Accept(p: Parser, ch: char, cw: nat): (r: (Parser, seq<VertexBeat>))
    requires Ready(p.state)
    ensures |r.1| <= 1 && (|r.1| == 1 <==> p.state == StartSearch && (PolygonText.IsDigit(ch) || ch == '\n' || ch == '\0'))
    ensures p.state == Idle ==> r.0.vertexCount == 0
  {
    match p.state
    case Idle =>
      if PolygonText.IsDigit(ch) then (p.(vertexCount := 0, accumX := PolygonText.DigitValue(ch), state := ParseX), [])
      else (p.(vertexCount := 0), [])
    case ParseX =>
      if PolygonText.IsDigit(ch) then (p.(accumX := Shifted10(p.accumX, ch, cw)), [])
      else if ch == ',' then (p.(accumY := 0, state := ParseY), [])
      else (p, [])
    case ParseY =>
      if PolygonText.IsDigit(ch) then (p.(accumY := Shifted10(p.accumY, ch, cw)), [])
      else if ch == '\n' then (p.(vertexCount := Wrap(p.vertexCount + 1, CountModulus), state := SendVertex), [])
      else (p, [])
    case StartSearch =>
      if PolygonText.IsDigit(ch) then
        (p.(accumX := PolygonText.DigitValue(ch), state := ParseX), [VertexBeat(Scaled(p, cw), false)])
      else if ch == '\n' || ch == '\0' then (p.(state := WaitComplete), [VertexBeat(Scaled(p, cw), true)])
      else (p, [])
  }

  /** The SEND_VERTEX cycle: the parsed vertex is driven with `vertex_last`
      low and the FSM waits in START_SEARCH for what follows. */
  function Send(p: Parser, cw: nat): (r: (Parser, seq<VertexBeat>))
    ensures r.0 == p.(state := StartSearch) && r.1 == [VertexBeat(Scaled(p, cw), false)]
  {
    (p.(state := StartSearch), [VertexBeat(Scaled(p, cw), false)])
  }

  /** The parser fed `text` one character per accepting cycle: SEND_VERTEX
      takes a cycle of its own, and feeding stops where the FSM leaves the
      accepting states. The result is the final registers and the beats. */
  function Feed(p: Parser, text: string, cw: nat): (r: (Parser, seq<VertexBeat>))
    decreases |text|, if p.state == SendVertex then 1 else 0
  {
    if p.state == SendVertex then
      var (q, bs) := Send(p, cw);
      var (f, rest) := Feed(q, text, cw);
      (f, bs + rest)
    else if |text| == 0 || !Ready(p.state) then (p, [])
    else
      var (q, bs) := Accept(p, text[0], cw);
      var (f, rest) := Feed(q, text[1..], cw);
      (f, bs + rest)
  }

  /** Feeding two texts in turn is feeding their concatenation. */
  lemma {:induction false} FeedAppend(p: Parser, a: string, b: string, cw: nat)
    ensures Feed(p, a + b, cw).0 == Feed(Feed(p, a, cw).0, b, cw).0
    ensures Feed(p, a + b, cw).1 == Feed(p, a, cw).1 + Feed(Feed(p, a, cw).0, b, cw).1
    decreases |a|, if p.state == SendVertex then 1 else 0
  {
    if p.state == SendVertex {
      var (q, bs) := Send(p, cw);
      FeedSend(p, a, cw);
      FeedSend(p, a + b, cw);
      FeedAppend(q, a, b, cw);
      AppendAssoc(bs, Feed(q, a, cw).1, Feed(Feed(q, a, cw).0, b, cw).1);
    } else if |a| == 0 {
      assert a + b == b;
      assert Feed(p, a, cw) == (p, []);
      assert [] + Feed(p, b, cw).1 == Feed(p, b, cw).1;
    } else if Ready(p.state) {
      var (q, bs) := Accept(p, a[0], cw);
      assert (a + b)[0] == a[0] && (a + b)[1..] == a[1..] + b;
      FeedAccept(p, a, cw);
      FeedAccept(p, a + b, cw);
      FeedAppend(q, a[1..], b, cw);
      AppendAssoc(bs, Feed(q, a[1..], cw).1, Feed(Feed(q, a[1..], cw).0, b, cw).1);
    } else {
      assert Feed(p, a, cw) == (p, []) && Feed(p, a + b, cw) == (p, []);
    }
  }

  // ---------------------------------------------------------------------------
  // Feeding the text of a polygon.

  /** The registers holding a vertex in START_SEARCH. */
  function Held(v: Point, count: nat): Parser
    requires v.x >= 0 && v.y >= 0
  {
    Parser(StartSearch, v.x, v.y, count)
  }

  /** Coordinates whose accumulation and scaling stay below `2 ^ coord_width`. */
  predicate Fits(v: Point, cw: nat)
  {
    0 <= v.x < Pow2(cw) / 4 && 0 <= v.y < Pow2(cw) / 4
  }

  /** Coordinates of a whole polygon that fit. */
  predicate AllFit(vs: seq<Point>, cw: nat)
  {
    forall k :: 0 <= k < |vs| ==> Fits(vs[k], cw)
  }

  /** Coordinates that print as decimal numbers. */
  predicate Natural(vs: seq<Point>)
  {
    forall k :: 0 <= k < |vs| ==> vs[k].x >= 0 && vs[k].y >= 0
  }

  /** One line of input, `x,y` and LF. */
  function Line(v: Point): string
    requires v.x >= 0 && v.y >= 0
  {
    PolygonText.NatToString(v.x) + "," + PolygonText.NatToString(v.y) + "\n"
  }

  /** The lines of a polygon, in order. */
  function Lines(vs: seq<Point>): string
    requires Natural(vs)
  {
    if |vs| == 0 then "" else Lines(vs[..|vs| - 1]) + Line(vs[|vs| - 1])
  }

  /** A digit string's value is at least that of its prefixes. */
  lemma DigitsValuePrefix(s: string, k: nat)
    requires k <= |s| && forall i :: 0 <= i < |s| ==> PolygonText.IsDigit(s[i])
    ensures PolygonText.DigitsValue(s[..k]) <= PolygonText.DigitsValue(s)
    decreases |s|
  {
    if k < |s| {
      assert s[..|s| - 1][..k] == s[..k];
      DigitsValuePrefix(s[..|s| - 1], k);
    } else {
      assert s[..k] == s;
    }
  }

  /** While PARSE_X (or PARSE_Y) reads digits, the accumulator holds the
      value of the digits read so far, as long as it fits. */
  lemma {:induction false} DigitRun(p: Parser, t: string, s: string, cw: nat, isX: bool)
    requires p.state == (if isX then ParseX else ParseY)
    requires forall i :: 0 <= i < |t| ==> PolygonText.IsDigit(t[i])
    requires forall i :: 0 <= i < |s| ==> PolygonText.IsDigit(s[i])
    requires (if isX then p.accumX else p.accumY) == PolygonText.DigitsValue(t)
    requires PolygonText.DigitsValue(t + s) < Pow2(cw)
    ensures Feed(p, s, cw) == (if isX then p.(accumX := PolygonText.DigitsValue(t + s))
                               else p.(accumY := PolygonText.DigitsValue(t + s)), [])
    decreases |s|
  {
    if |s| == 0 {
      assert t + s == t;
    } else {
      var t' := t + [s[0]];
      assert t'[..|t|] == t && (t + s)[..|t| + 1] == t' && t' + s[1..] == t + s;
      DigitsValuePrefix(t + s, |t| + 1);
      var value := PolygonText.DigitsValue(t');
      assert value == (if isX then p.accumX else p.accumY) * 10 + PolygonText.DigitValue(s[0]);
      var q := if isX then p.(accumX := value) else p.(accumY := value);
      assert Accept(p, s[0], cw) == (q, []);
      DigitRun(q, t', s[1..], cw, isX);
      var none: seq<VertexBeat> := [];
      assert none + none == none;
    }
  }

  /** Feeding from SEND_VERTEX drives the held vertex first. */
  lemma FeedSend(p: Parser, text: string, cw: nat)
    requires p.state == SendVertex
    ensures Feed(p, text, cw).0 == Feed(Send(p, cw).0, text, cw).0
    ensures Feed(p, text, cw).1 == Send(p, cw).1 + Feed(Send(p, cw).0, text, cw).1
  {
  }

  /** Feeding a ready parser accepts the first character first. */
  lemma FeedAccept(p: Parser, text: string, cw: nat)
    requires p.state != SendVertex && |text| > 0 && Ready(p.state)
    ensures Feed(p, text, cw).0 == Feed(Accept(p, text[0], cw).0, text[1..], cw).0
    ensures Feed(p, text, cw).1 == Accept(p, text[0], cw).1 + Feed(Accept(p, text[0], cw).0, text[1..], cw).1
  {
  }

  lemma AppendAssoc<T>(a: seq<T>, b: seq<T>, c: seq<T>)
    ensures a + (b + c) == (a + b) + c
  {
  }

  lemma FeedOne(p: Parser, ch: char, cw: nat)
    requires Ready(p.state) && Accept(p, ch, cw).0.state != SendVertex
    ensures Feed(p, [ch], cw) == Accept(p, ch, cw)
  {
    var (q, bs) := Accept(p, ch, cw);
    assert [ch][1..] == [];
    assert Feed(q, [], cw) == (q, []);
    assert bs + [] == bs;
  }

  /** A whole number from IDLE or START_SEARCH: its first digit starts the x
      value (driving the held vertex again in START_SEARCH) and the rest
      accumulate. */
  lemma FirstNumber(p: Parser, x: nat, cw: nat)
    requires (p.state == Idle || p.state == StartSearch) && x < Pow2(cw)
    ensures Feed(p, PolygonText.NatToString(x), cw)
            == (p.(state := ParseX, accumX := x, vertexCount := if p.state == Idle then 0 else p.vertexCount),
                if p.state == StartSearch then [VertexBeat(Scaled(p, cw), false)] else [])
  {
    var s := PolygonText.NatToString(x);
    var first := [s[0]];
    assert s == first + s[1..];
    FeedAppend(p, first, s[1..], cw);
    FeedOne(p, s[0], cw);
    var (q, bs) := Accept(p, s[0], cw);
    assert PolygonText.DigitsValue(first) == PolygonText.DigitValue(s[0]) by {
      assert first[..0] == [];
    }
    DigitRun(q, first, s[1..], cw, true);
    assert bs + [] == bs;
  }

  /** LF in PARSE_Y ends the vertex: the count goes up, SEND_VERTEX drives
      the vertex and the FSM waits in START_SEARCH. */
  lemma NewlineFeed(p: Parser, cw: nat)
    requires p.state == ParseY
    ensures Feed(p, "\n", cw)
            == (p.(vertexCount := Wrap(p.vertexCount + 1, CountModulus), state := StartSearch),
                [VertexBeat(Scaled(p, cw), false)])
  {
    var ps := p.(vertexCount := Wrap(p.vertexCount + 1, CountModulus), state := SendVertex);
    var pw := ps.(state := StartSearch);
    var b := VertexBeat(Scaled(p, cw), false);
    assert Scaled(ps, cw) == Scaled(p, cw);
    assert "\n"[1..] == [];
    assert Feed(pw, [], cw) == (pw, []);
    assert Feed(ps, [], cw) == (pw, [b] + []);
    assert [b] + [] == [b] && [] + [b] == [b];
  }

  /** The comma, the y value and the LF of a line, from PARSE_X holding `x`:
      the vertex is driven from SEND_VERTEX and held in START_SEARCH. */
  lemma LineRest(p: Parser, v: Point, cw: nat)
    requires p.state == ParseX && p.accumX == v.x && Fits(v, cw)
    ensures Feed(p, "," + PolygonText.NatToString(v.y) + "\n", cw)
            == (Held(v, Wrap(p.vertexCount + 1, CountModulus)), [VertexBeat(Point(4 * v.x, 4 * v.y), false)])
  {
    var ys := PolygonText.NatToString(v.y);
    assert "," + ys + "\n" == [','] + (ys + "\n");
    FeedAppend(p, [','], ys + "\n", cw);
    FeedOne(p, ',', cw);
    var py := p.(accumY := 0, state := ParseY);
    FeedAppend(py, ys, "\n", cw);
    assert "" + ys == ys;
    DigitRun(py, "", ys, cw, false);
    var pe := py.(accumY := v.y);
    NewlineFeed(pe, cw);
    assert Scaled(pe, cw) == Point(4 * v.x, 4 * v.y);
    assert [] + [VertexBeat(Scaled(pe, cw), false)] == [VertexBeat(Scaled(pe, cw), false)];
  }

  /** One line from START_SEARCH (or IDLE): the held vertex is driven again
      (not from IDLE), then the new one is driven from SEND_VERTEX and held. */
  lemma {:induction false} LineFeed(p: Parser, v: Point, cw: nat)
    requires (p.state == Idle || p.state == StartSearch) && Fits(v, cw)
    ensures var count := Wrap((if p.state == Idle then 0 else p.vertexCount) + 1, CountModulus);
            Feed(p, Line(v), cw)
            == (Held(v, count), (if p.state == StartSearch then [VertexBeat(Scaled(p, cw), false)] else [])
                                + [VertexBeat(Point(4 * v.x, 4 * v.y), false)])
  {
    var xs := PolygonText.NatToString(v.x);
    var rest := "," + PolygonText.NatToString(v.y) + "\n";
    assert Line(v) == xs + rest;
    FeedAppend(p, xs, rest, cw);
    FirstNumber(p, v.x, cw);
    var px := p.(state := ParseX, accumX := v.x, vertexCount := if p.state == Idle then 0 else p.vertexCount);
    LineRest(px, v, cw);
  }

  /** The beat of a vertex as the finder sees it, scaled by 4. */
  function Beat(v: Point): VertexBeat
  {
    VertexBeat(Point(4 * v.x, 4 * v.y), false)
  }

  /** Every vertex reaches the finder twice in a row with `vertex_last` low
      (SEND_VERTEX, then START_SEARCH when the next line starts); the
      beats of a polygon's lines are these pairs, without the last vertex's
      second beat. */
  function Doubled(vs: seq<Point>): (bs: seq<VertexBeat>)
    ensures |bs| == 2 * |vs|
    ensures forall k :: 0 <= k < |vs| ==> bs[2 * k] == Beat(vs[k]) && bs[2 * k + 1] == Beat(vs[k])
  {
    if |vs| == 0 then []
    else Doubled(vs[..|vs| - 1]) + [Beat(vs[|vs| - 1]), Beat(vs[|vs| - 1])]
  }

  /** A line after a text that leaves vertex `u` held: `u` is driven again,
      then `v`, and `v` is held with the count one up. */
  lemma LineAfterHeld(front: string, u: Point, v: Point, count: nat, beats: seq<VertexBeat>, cw: nat)
    requires Fits(u, cw) && Fits(v, cw)
    requires Feed(ResetParser, front, cw) == (Held(u, count), beats)
    ensures Feed(ResetParser, front + Line(v), cw)
            == (Held(v, Wrap(count + 1, CountModulus)), beats + [Beat(u), Beat(v)])
  {
    FeedAppend(ResetParser, front, Line(v), cw);
    LineFeed(Held(u, count), v, cw);
    assert [Beat(u)] + [Beat(v)] == [Beat(u), Beat(v)];
  }

  /** The lines of a polygon: every vertex but the last reaches the finder
      twice, the last once, and the last is held with the count of lines. */
  lemma {:induction false} LinesFeed(vs: seq<Point>, cw: nat)
    requires |vs| > 0 && AllFit(vs, cw)
    ensures Feed(ResetParser, Lines(vs), cw)
            == (Held(vs[|vs| - 1], Wrap(|vs|, CountModulus)), Doubled(vs[..|vs| - 1]) + [Beat(vs[|vs| - 1])])
  {
    var n := |vs|;
    var v := vs[n - 1];
    var init := vs[..n - 1];
    assert Fits(v, cw);
    if n == 1 {
      assert init == [];
      assert Lines(vs) == "" + Line(v);
      assert "" + Line(v) == Line(v);
      LineFeed(ResetParser, v, cw);
    } else {
      var u := vs[n - 2];
      var front := Doubled(init[..n - 2]) + [Beat(u)];
      assert Doubled(init) == Doubled(init[..n - 2]) + [Beat(u), Beat(u)];
      assert front + [Beat(u), Beat(v)] == Doubled(init) + [Beat(v)];
      assert Wrap(Wrap(n - 1, CountModulus) + 1, CountModulus) == Wrap(n, CountModulus) by {
        WrapSucc(n - 1, CountModulus);
      }
      assert Feed(ResetParser, Lines(init), cw) == (Held(u, Wrap(n - 1, CountModulus)), front) by {
        assert AllFit(init, cw);
        LinesFeed(init, cw);
      }
      assert Lines(vs) == Lines(init) + Line(v);
      assert Fits(u, cw);
      LineAfterHeld(Lines(init), u, v, Wrap(n - 1, CountModulus), front, cw);
    }
  }

  /** Counting up and then truncating is truncating and then counting up. */
  lemma {:induction false} WrapSucc(a: nat, m: nat)
    requires m > 0
    ensures Wrap(Wrap(a, m) + 1, m) == Wrap(a + 1, m)
  {
    if a >= m {
      WrapSucc(a - m, m);
    }
  }

  /** LF (or NUL) in START_SEARCH ends the polygon: the held vertex is driven
      again with `vertex_last` high and the parser waits for the load. */
  lemma EndFeed(p: Parser, cw: nat)
    requires p.state == StartSearch
    ensures Feed(p, "\n", cw) == (p.(state := WaitComplete), [VertexBeat(Scaled(p, cw), true)])
  {
    assert "\n"[1..] == [];
    var pw := p.(state := WaitComplete);
    assert Feed(pw, [], cw) == (pw, []);
    assert [VertexBeat(Scaled(p, cw), true)] + [] == [VertexBeat(Scaled(p, cw), true)];
  }

  /** A polygon's lines and a terminating empty line: the finder receives
      every vertex, scaled by 4, twice in a row, and `vertex_last` with the
      second copy of the last vertex; the parser then waits for the load to
      finish. */
  lemma PolygonFeed(vs: seq<Point>, cw: nat)
    requires |vs| > 0 && AllFit(vs, cw)
    ensures var n := |vs|;
            var last := VertexBeat(Point(4 * vs[n - 1].x, 4 * vs[n - 1].y), true);
            Feed(ResetParser, Lines(vs) + "\n", cw)
            == (Held(vs[n - 1], Wrap(n, CountModulus)).(state := WaitComplete), Doubled(vs[..n - 1]) + [Beat(vs[n - 1]), last])
  {
    var n := |vs|;
    assert Fits(vs[n - 1], cw);
    LinesFeed(vs, cw);
    FeedAppend(ResetParser, Lines(vs), "\n", cw);
    var p := Held(vs[n - 1], Wrap(n, CountModulus));
    EndFeed(p, cw);
    var last := VertexBeat(Point(4 * vs[n - 1].x, 4 * vs[n - 1].y), true);
    assert Scaled(p, cw) == last.vertex;
    var front := Doubled(vs[..n - 1]);
    assert (front + [Beat(vs[n - 1])]) + [last] == front + [Beat(vs[n - 1]), last];
  }

  // ---------------------------------------------------------------------------
  // The result: `max_area >> 4` converted to 13 BCD digits by double dabble
  // (BCD_CONVERT), then sent as ASCII, most significant digit first, and LF
  // (SEND_RESULT).

  /** The number of BCD digit registers and of BCD_CONVERT shift steps. */
  const BcdDigits: nat := 13
  const ConvertSteps: nat := 40

  function Bit(b: bool): nat
  {
    if b then 1 else 0
  }

  function Pow10(k: nat): (p: nat)
    ensures p >= 1
  {
    if k == 0 then 1 else 10 * Pow10(k - 1)
  }

  /** Digits that are decimal, least significant first. */
  predicate Decimal(s: seq<nat>)
  {
    forall i :: 0 <= i < |s| ==> s[i] <= 9
  }

  /** The number the BCD digits stand for, least significant digit first. */
  function Value(s: seq<nat>): nat
  {
    if |s| == 0 then 0 else s[0] + 10 * Value(s[1..])
  }

  /** The dabble of a 4-bit digit: 3 is added to a digit of 5 or more, in
      4 bits. */
  function Dabble(d: nat): (e: nat)
    requires d < 16
    ensures e < 16
  {
    if d >= 5 then (d + 3) % 16 else d
  }

  /** One BCD_CONVERT step on the digits, from the lowest up: each digit is
      dabbled and shifted left in 4 bits, taking the carry from below, and
      passes the top bit of its dabbled value to the digit above. */
  function ShiftIn(s: seq<nat>, c: bool): (t: seq<nat>)
    requires forall k :: 0 <= k < |s| ==> s[k] < 16
    ensures |t| == |s|
  {
    if |s| == 0 then []
    else [(2 * Dabble(s[0]) + Bit(c)) % 16] + ShiftIn(s[1..], Dabble(s[0]) >= 8)
  }

  /** The carry out of the top digit, which the registers drop. */
  function CarryOut(s: seq<nat>, c: bool): bool
    requires forall k :: 0 <= k < |s| ==> s[k] < 16
  {
    if |s| == 0 then c else CarryOut(s[1..], Dabble(s[0]) >= 8)
  }

  /** The dabble and shift of one decimal digit: twice the digit plus the
      incoming bit, less ten when the digit is 5 or more, which is exactly
      when the top bit of the dabbled digit carries into the next digit. */
  lemma DigitShift(d: nat, c: bool)
    requires d <= 9
    ensures Dabble(d) >= 8 <==> d >= 5
    ensures (2 * Dabble(d) + Bit(c)) % 16 == 2 * d + Bit(c) - 10 * Bit(d >= 5)
    ensures 2 * d + Bit(c) - 10 * Bit(d >= 5) <= 9
  {
    if d >= 5 {
      ModRange(d + 3, 16);
      ModRange(2 * (d + 3) + Bit(c), 16);
    } else {
      ModRange(2 * d + Bit(c), 16);
    }
  }

  /** Double dabble's invariant: shifting decimal digits doubles their value
      and adds the incoming bit, up to the carry out of the top digit; the
      digits stay decimal. */
  lemma {:induction false} ShiftInValue(s: seq<nat>, c: bool)
    requires Decimal(s)
    ensures Decimal(ShiftIn(s, c))
    ensures Value(ShiftIn(s, c)) + Pow10(|s|) * Bit(CarryOut(s, c)) == 2 * Value(s) + Bit(c)
  {
    if |s| > 0 {
      var c1 := Dabble(s[0]) >= 8;
      DigitShift(s[0], c);
      var t, rest := ShiftIn(s, c), ShiftIn(s[1..], c1);
      ShiftInValue(s[1..], c1);
      assert t[1..] == rest;
      CarryArithmetic(t[0], s[0], Bit(c), Bit(c1), Value(t), Value(rest), Value(s[1..]),
                      Pow10(|s| - 1), Bit(CarryOut(s, c)));
    }
  }

  /** The arithmetic of one digit of `ShiftInValue`. */
  lemma CarryArithmetic(t0: int, s0: int, cIn: int, c1: int, vt: int, vr: int, vs: int, p: int, out: int)
    requires out == 0 || out == 1
    requires t0 == 2 * s0 + cIn - 10 * c1 && vt == t0 + 10 * vr && vr + p * out == 2 * vs + c1
    ensures vt + (10 * p) * out == 2 * (s0 + 10 * vs) + cIn
  {
    if out == 1 {
      assert vr + p == 2 * vs + c1;
    }
  }

  /** The value of a bit string, most significant bit first. */
  function BitsValue(b: seq<bool>): (v: nat)
    ensures v < Pow2(|b|)
  {
    if |b| == 0 then 0 else 2 * BitsValue(b[..|b| - 1]) + Bit(b[|b| - 1])
  }

  /** `v` in an `n`-bit register, most significant bit first. */
  function ToBits(v: nat, n: nat): (b: seq<bool>)
    ensures |b| == n
  {
    if n == 0 then [] else ToBits(v / 2, n - 1) + [v % 2 == 1]
  }

  /** A value that fits is read back from its bits. */
  lemma {:induction false} ToBitsValue(v: nat, n: nat)
    requires v < Pow2(n)
    ensures BitsValue(ToBits(v, n)) == v
  {
    if n > 0 {
      ToBitsValue(v / 2, n - 1);
      var b := ToBits(v, n);
      assert b[..n - 1] == ToBits(v / 2, n - 1);
    }
  }

  /** The low `k` bits of a value that fits in `k` bits are its `k`-bit
      string, whatever the register's width. */
  lemma {:induction false} ToBitsSuffix(v: nat, k: nat, n: nat)
    requires k <= n && v < Pow2(k)
    ensures ToBits(v, n)[n - k..] == ToBits(v, k)
  {
    if k > 0 {
      ToBitsSuffix(v / 2, k - 1, n - 1);
      var b := ToBits(v, n);
      assert b[n - k..] == ToBits(v / 2, n - 1)[n - k..] + [v % 2 == 1];
    } else {
      assert ToBits(v, n)[n..] == [];
    }
  }

  /** The bits BCD_CONVERT shifts in: bit 39 of `binary_value` at each of
      the 40 steps, that is its low 40 bits, most significant first.  A
      register narrower than 40 bits has no bit 39 (the constant slice is
      empty) and shifts in zeros. */
  function Low40(b: seq<bool>): (low: seq<bool>)
    ensures |low| == (if |b| >= ConvertSteps then ConvertSteps else 0)
  {
    if |b| >= ConvertSteps then b[|b| - ConvertSteps..] else []
  }

  /** The carry into the lowest digit at a step, from bit 39 of the
      shifted `binary_value`. */
  function CarryIn(b: seq<bool>): bool
  {
    |b| >= ConvertSteps && b[|b| - ConvertSteps]
  }

  /** The value the digits hold after BCD_CONVERT on `v` in an `width`-bit
      `binary_value`. */
  function Converted(v: nat, width: nat): nat
  {
    BitsValue(Low40(ToBits(v, width)))
  }

  /** A register of 40 bits or more converts any value below `2^40`. */
  lemma ConvertedWide(v: nat, width: nat)
    requires width >= ConvertSteps && v < Pow2(ConvertSteps)
    ensures Converted(v, width) == v
  {
    ToBitsSuffix(v, ConvertSteps, width);
    ToBitsValue(v, ConvertSteps);
  }

  /** A register narrower than 40 bits converts everything to 0. */
  lemma ConvertedNarrow(v: nat, width: nat)
    requires width < ConvertSteps
    ensures Converted(v, width) == 0
  {
  }

  /** `2^40` fits in 13 decimal digits. */
  lemma ConvertRange()
    ensures Pow2(ConvertSteps) <= Pow10(BcdDigits)
  {
    assert Pow2(10) == 1024;
    assert Pow2(20) == 1024 * Pow2(10) by {
      Pow2Add(10, 10);
    }
    Pow2Add(20, 20);
    assert Pow10(13) == 10000000000000;
  }

  /** `2^k <= 2^n` for `k <= n`. */
  lemma {:induction false} Pow2Monotone(k: nat, n: nat)
    requires k <= n
    ensures Pow2(k) <= Pow2(n)
  {
    if k < n {
      Pow2Monotone(k, n - 1);
    }
  }

  // ---------------------------------------------------------------------------
  // The digits as text.

  /** The characters of decimal digits, most significant first. */
  function DigitText(s: seq<nat>): (t: string)
    requires Decimal(s)
    ensures |t| == |s|
  {
    if |s| == 0 then "" else DigitText(s[1..]) + [PolygonText.DigitChar(s[0])]
  }

  /** `result_len` for digits not all zero: one past the highest nonzero
      digit; 0 when all are zero. */
  function SignificantLength(s: seq<nat>): (n: nat)
    ensures n <= |s| && (n == 0 || s[n - 1] != 0)
    ensures forall i :: n <= i < |s| ==> s[i] == 0
  {
    if |s| == 0 then 0 else if s[|s| - 1] != 0 then |s| else SignificantLength(s[..|s| - 1])
  }

  /** The significant length is the one position with a nonzero digit
      below it and only zeros from it on. */
  lemma {:induction false} SignificantLengthUnique(s: seq<nat>, len: nat)
    requires len <= |s| && (len == 0 || s[len - 1] != 0)
    requires forall i :: len <= i < |s| ==> s[i] == 0
    ensures SignificantLength(s) == len
  {
    if |s| > 0 && s[|s| - 1] == 0 {
      SignificantLengthUnique(s[..|s| - 1], len);
    }
  }

  /** What SEND_RESULT sends before LF: "0" when every digit is zero,
      otherwise the significant digits, most significant first. */
  function ResultText(s: seq<nat>): string
    requires Decimal(s)
  {
    var n := SignificantLength(s);
    if n == 0 then "0" else DigitText(s[..n])
  }

  /** Zero digits above the first `n` add nothing. */
  lemma {:induction false} ValueZeroTop(s: seq<nat>, n: nat)
    requires n <= |s| && forall i :: n <= i < |s| ==> s[i] == 0
    ensures Value(s) == Value(s[..n])
  {
    if |s| > 0 {
      if n == 0 {
        ValueZeroTop(s[1..], 0);
      } else {
        assert s[..n][1..] == s[1..][..n - 1];
        ValueZeroTop(s[1..], n - 1);
      }
    }
  }

  /** Digits with a nonzero top digit stand for a positive number. */
  lemma {:induction false} ValuePositive(s: seq<nat>)
    requires |s| > 0 && s[|s| - 1] != 0
    ensures Value(s) >= 1
  {
    if |s| > 1 {
      ValuePositive(s[1..]);
    }
  }

  /** Digits without leading zeros print as the decimal numeral of their
      value. */
  lemma {:induction false} DigitTextValue(s: seq<nat>)
    requires Decimal(s) && |s| > 0 && s[|s| - 1] != 0
    ensures DigitText(s) == PolygonText.NatToString(Value(s))
  {
    if |s| == 1 {
      assert Value(s) == s[0] + 10 * Value(s[1..]);
      assert DigitText(s) == "" + [PolygonText.DigitChar(s[0])];
    } else {
      var v, rest := Value(s), Value(s[1..]);
      ValuePositive(s[1..]);
      DigitTextValue(s[1..]);
      assert v / 10 == rest && v % 10 == s[0];
    }
  }

  /** SEND_RESULT prints the decimal numeral of the digits' value. */
  lemma ResultTextValue(s: seq<nat>)
    requires Decimal(s)
    ensures ResultText(s) == PolygonText.NatToString(Value(s))
  {
    var n := SignificantLength(s);
    ValueZeroTop(s, n);
    if n == 0 {
      assert Value(s) == 0 by { assert s[..n] == []; }
      assert ResultText(s) == "0";
    } else {
      SignificantTextValue(s, n);
    }
  }

  /** The significant digits print as the numeral of their value. */
  lemma SignificantTextValue(s: seq<nat>, n: nat)
    requires Decimal(s) && 0 < n <= |s| && s[n - 1] != 0
    ensures DigitText(s[..n]) == PolygonText.NatToString(Value(s[..n]))
  {
    var t := s[..n];
    assert Decimal(t);
    DigitTextValue(t);
  }

  // ---------------------------------------------------------------------------
  // The registers of the conversion and of the result.

  /** `bcd_digits` after WAIT_RESULT clears them. */
  const ZeroDigits: seq<nat> := seq(BcdDigits, _ => 0)

  /** `binary_value << 1` in its own width, most significant bit first. */
  function ShiftLeft(b: seq<bool>): (r: seq<bool>)
    ensures |r| == |b|
  {
    if |b| == 0 then [] else b[1..] + [false]
  }

  /** The leading bit weighs `2^(n-1)` in an `n`-bit string. */
  lemma {:induction false} BitsValueHead(b: seq<bool>)
    requires |b| > 0
    ensures BitsValue(b) == Bit(b[0]) * Pow2(|b| - 1) + BitsValue(b[1..])
  {
    if |b| > 1 {
      var init := b[..|b| - 1];
      BitsValueHead(init);
      assert init[1..] == b[1..][..|b| - 2];
      assert BitsValue(b[1..]) == 2 * BitsValue(init[1..]) + Bit(b[|b| - 1]);
    } else {
      assert b[..0] == [] && b[1..] == [];
    }
  }

  /** Shifting left doubles the value in the register's width. */
  lemma ShiftLeftValue(b: seq<bool>)
    ensures BitsValue(ShiftLeft(b)) == (2 * BitsValue(b)) % Pow2(|b|)
  {
    if |b| > 0 {
      var r := ShiftLeft(b);
      BitsValueHead(b);
      var x, low := BitsValue(b), BitsValue(b[1..]);
      assert r[..|r| - 1] == b[1..];
      assert BitsValue(r) == 2 * low;
      DropTop(x, low, Pow2(|b| - 1), Bit(b[0]), Pow2(|b|));
      assert (2 * x) % Pow2(|b|) == 2 * low;
    }
  }

  /** Doubling drops a top bit of weight `half` modulo `2 * half`. */
  lemma DropTop(x: nat, low: nat, half: nat, top: nat, p: nat)
    requires top <= 1 && low < half && x == top * half + low && p == 2 * half
    ensures (2 * x) % p == 2 * low
  {
    ModRange(2 * low, p);
    if top == 1 {
      ModShift(2 * low, p);
    }
  }

  /** The bits shifted in by the first `k` steps of BCD_CONVERT. */
  function Taken(b: seq<bool>, k: nat): (t: seq<bool>)
    requires k <= ConvertSteps
    ensures k == ConvertSteps ==> t == Low40(b)
  {
    if |b| >= ConvertSteps then b[|b| - ConvertSteps..|b| - ConvertSteps + k] else []
  }

  /** `n` false bits. */
  function Zeros(n: nat): (z: seq<bool>)
    ensures |z| == n && forall i :: 0 <= i < n ==> !z[i]
  {
    seq(n, _ => false)
  }

  /** Where BCD_CONVERT stands after `k` steps on `b`: the digits hold the
      value of the bits shifted in and `binary_value` is `b` shifted left
      `k` times. */
  ghost predicate Converting(digits: seq<nat>, bits: seq<bool>, b: seq<bool>, k: nat)
  {
    && k <= ConvertSteps && Decimal(digits) && |digits| == BcdDigits
    && Value(digits) == BitsValue(Taken(b, k))
    && |bits| == |b|
    && (|b| >= ConvertSteps ==> bits == b[k..] + Zeros(k))
  }

  /** One BCD_CONVERT step keeps the digits equal to the bits shifted in:
      they never carry out of the top digit, since 40 bits fit in 13 decimal
      digits. */
  lemma ConvertStep(digits: seq<nat>, bits: seq<bool>, b: seq<bool>, k: nat)
    requires Converting(digits, bits, b, k) && k < ConvertSteps
    ensures Converting(ShiftIn(digits, CarryIn(bits)), ShiftLeft(bits), b, k + 1)
  {
    var c := CarryIn(bits);
    TakenStep(bits, b, k);
    ShiftInValue(digits, c);
    Pow2Monotone(k + 1, ConvertSteps);
    ConvertRange();
    NoCarryOut(Value(ShiftIn(digits, c)), Pow10(BcdDigits), Bit(CarryOut(digits, c)),
               BitsValue(Taken(b, k + 1)));
  }

  lemma NoCarryOut(value: nat, p: nat, out: nat, v: nat)
    requires out <= 1 && value + p * out == v && v < p
    ensures value == v
  {
  }

  /** A step shifts bit `39 - k` of the loaded value in and moves
      `binary_value` on by one. */
  lemma TakenStep(bits: seq<bool>, b: seq<bool>, k: nat)
    requires k < ConvertSteps && |bits| == |b| && (|b| >= ConvertSteps ==> bits == b[k..] + Zeros(k))
    ensures BitsValue(Taken(b, k + 1)) == 2 * BitsValue(Taken(b, k)) + Bit(CarryIn(bits))
    ensures |b| >= ConvertSteps ==> ShiftLeft(bits) == b[k + 1..] + Zeros(k + 1)
  {
    if |b| >= ConvertSteps {
      TakenGrows(bits, b, k);
      ShiftLeftDrops(bits, b, k);
    }
  }

  lemma TakenGrows(bits: seq<bool>, b: seq<bool>, k: nat)
    requires k < ConvertSteps && |bits| == |b| >= ConvertSteps && bits == b[k..] + Zeros(k)
    ensures BitsValue(Taken(b, k + 1)) == 2 * BitsValue(Taken(b, k)) + Bit(CarryIn(bits))
  {
    var next := Taken(b, k + 1);
    assert CarryIn(bits) == b[|b| - ConvertSteps + k] == next[k];
    assert next[..k] == Taken(b, k);
  }

  lemma ShiftLeftDrops(bits: seq<bool>, b: seq<bool>, k: nat)
    requires k < |b| && bits == b[k..] + Zeros(k)
    ensures ShiftLeft(bits) == b[k + 1..] + Zeros(k + 1)
  {
    assert bits[1..] == b[k + 1..] + Zeros(k);
    assert Zeros(k) + [false] == Zeros(k + 1);
  }

  /** The characters of digits, least significant first, as `result_buffer`
      holds them. */
  function DigitChars(s: seq<nat>): (t: string)
    requires Decimal(s)
    ensures |t| == |s| && forall i :: 0 <= i < |s| ==> t[i] == PolygonText.DigitChar(s[i])
  {
    seq(|s|, i requires 0 <= i < |s| => PolygonText.DigitChar(s[i]))
  }

  function Reversed(s: string): (r: string)
    ensures |r| == |s| && forall i :: 0 <= i < |s| ==> r[i] == s[|s| - 1 - i]
  {
    seq(|s|, i requires 0 <= i < |s| => s[|s| - 1 - i])
  }

  /** The buffer read from the top down spells the digits most significant
      first. */
  lemma {:induction false} ReversedDigitChars(s: seq<nat>)
    requires Decimal(s)
    ensures Reversed(DigitChars(s)) == DigitText(s)
  {
    if |s| > 0 {
      ReversedDigitChars(s[1..]);
      assert Reversed(DigitChars(s)) == Reversed(DigitChars(s[1..])) + [PolygonText.DigitChar(s[0])];
    }
  }

  /** The cycles of the wrapper around the finder.  The finder itself is
      not part of this class: ASSERT_START returns its `start_search` and
      WAIT_RESULT takes its `done` and `max_area`. */
  class MaxRectangleAsciiWrapper {
    const coordWidth: nat
    const areaWidth: nat
    /** The FSM state, `accum_x`, `accum_y` and `vertex_count`. */
    var state: WrapperState
    var accumX: nat
    var accumY: nat
    var vertexCount: nat
    /** `binary_value`, most significant bit first. */
    var binaryValue: seq<bool>
    var shiftCount: nat
    /** `bcd_digits`, least significant first. */
    const bcd: array<nat>
    /** `result_buffer`: the characters to send, least significant first. */
    const resultBuffer: array<char>
    var resultLen: nat
    var resultIdx: nat

    ghost predicate Valid()
      reads this, bcd
    {
      && areaWidth == 2 * coordWidth
      && bcd.Length == BcdDigits && resultBuffer.Length == 16
      && Decimal(bcd[..])
      && resultLen <= BcdDigits
    }

    /** The parsing registers as one value. */
    function Registers(): (p: Parser)
      reads this
      ensures p.state == state
    {
      Parser(state, accumX, accumY, vertexCount)
    }

    /** The characters SEND_RESULT has still to send before LF. */
    ghost function Unsent(): string
      reads this, bcd, resultBuffer
      requires Valid()
    {
      if resultIdx <= resultLen then Reversed(resultBuffer[..resultLen - resultIdx]) else ""
    }

    /** Reset: every register zero, the FSM in IDLE. */
    constructor(coordWidth: nat)
      ensures Valid() && this.coordWidth == coordWidth
      ensures Registers() == ResetParser
      ensures binaryValue == Zeros(areaWidth) && shiftCount == 0 && bcd[..] == ZeroDigits
      ensures resultBuffer[..] == seq(16, _ => '\0') && resultLen == 0 && resultIdx == 0
      ensures fresh(bcd) && fresh(resultBuffer)
    {
      this.coordWidth := coordWidth;
      areaWidth := 2 * coordWidth;
      state, accumX, accumY, vertexCount := Idle, 0, 0, 0;
      binaryValue := Zeros(2 * coordWidth);
      shiftCount := 0;
      bcd := new nat[BcdDigits](_ => 0);
      resultBuffer := new char[16](_ => '\0');
      resultLen, resultIdx := 0, 0;
    }

    /** A cycle without `ascii_in_valid`: IDLE clears the vertex count, the
        input states wait. */
    method IdleCycle()
      requires Ready(state)
      modifies this`vertexCount
      ensures vertexCount == (if state == Idle then 0 else old(vertexCount))
    {
      if state == Idle {
        vertexCount := 0;
      }
    }

    /** A cycle in which the wrapper takes `ch`, returning the vertex beat
        it drives, if any. */
    method InputCycle(ch: char) returns (beats: seq<VertexBeat>)
      requires Ready(state)
      modifies this`state, this`accumX, this`accumY, this`vertexCount
      ensures (Registers(), beats) == Accept(old(Registers()), ch, coordWidth)
    {
      var m := Pow2(coordWidth);
      var scaled := Point((4 * accumX) % m, (4 * accumY) % m);
      WrapIsMod(4 * accumX, m);
      WrapIsMod(4 * accumY, m);
      beats := [];
      match state
      case Idle =>
        vertexCount := 0;
        if PolygonText.IsDigit(ch) {
          accumX, state := PolygonText.DigitValue(ch), ParseX;
        }
      case ParseX =>
        if PolygonText.IsDigit(ch) {
          WrapIsMod(accumX * 10 + PolygonText.DigitValue(ch), m);
          accumX := (accumX * 10 + PolygonText.DigitValue(ch)) % m;
        } else if ch == ',' {
          accumY, state := 0, ParseY;
        }
      case ParseY =>
        if PolygonText.IsDigit(ch) {
          WrapIsMod(accumY * 10 + PolygonText.DigitValue(ch), m);
          accumY := (accumY * 10 + PolygonText.DigitValue(ch)) % m;
        } else if ch == '\n' {
          WrapIsMod(vertexCount + 1, CountModulus);
          vertexCount, state := (vertexCount + 1) % CountModulus, SendVertex;
        }
      case StartSearch =>
        if PolygonText.IsDigit(ch) {
          beats := [VertexBeat(scaled, false)];
          accumX, state := PolygonText.DigitValue(ch), ParseX;
        } else if ch == '\n' || ch == '\0' {
          beats := [VertexBeat(scaled, true)];
          state := WaitComplete;
        }
    }

    /** The SEND_VERTEX cycle. */
    method SendVertexCycle() returns (beat: VertexBeat)
      requires state == SendVertex
      modifies this`state
      ensures (Registers(), [beat]) == Send(old(Registers()), coordWidth)
    {
      var m := Pow2(coordWidth);
      WrapIsMod(4 * accumX, m);
      WrapIsMod(4 * accumY, m);
      beat := VertexBeat(Point((4 * accumX) % m, (4 * accumY) % m), false);
      state := StartSearch;
    }

    /** The cycles in which a sender offers `text` one character at a time:
        a character goes in on each cycle the wrapper is ready, SEND_VERTEX
        takes a cycle of its own, and the rest of the text is not taken once
        the polygon has ended. */
    method Receive(text: string) returns (beats: seq<VertexBeat>)
      modifies this`state, this`accumX, this`accumY, this`vertexCount
      ensures (Registers(), beats) == Feed(old(Registers()), text, coordWidth)
    {
      ghost var out := Feed(Registers(), text, coordWidth);
      var i := 0;
      beats := [];
      assert text[i..] == text;
      while state == SendVertex || (i < |text| && Ready(state))
        invariant i <= |text|
        invariant out.0 == Feed(Registers(), text[i..], coordWidth).0
        invariant out.1 == beats + Feed(Registers(), text[i..], coordWidth).1
        decreases |text| - i, if state == SendVertex then 1 else 0
      {
        ghost var p := Registers();
        ghost var rest := text[i..];
        if state == SendVertex {
          var beat := SendVertexCycle();
          FeedSend(p, rest, coordWidth);
          AppendAssoc(beats, [beat], Feed(Registers(), rest, coordWidth).1);
          beats := beats + [beat];
        } else {
          var bs := InputCycle(text[i]);
          FeedAccept(p, rest, coordWidth);
          assert rest[1..] == text[i + 1..];
          AppendAssoc(beats, bs, Feed(Registers(), rest[1..], coordWidth).1);
          beats := beats + bs;
          i := i + 1;
        }
      }
      assert beats + [] == beats;
    }

    /** WAIT_COMPLETE: one cycle for `vertex_last` to reach the finder. */
    method WaitCompleteCycle()
      requires state == WaitComplete
      modifies this`state
      ensures state == AssertStart
    {
      state := AssertStart;
    }

    /** ASSERT_START: `start_search` is high for one cycle. */
    method AssertStartCycle() returns (startSearch: bool)
      requires state == AssertStart
      modifies this`state
      ensures startSearch && state == WaitResult
    {
      startSearch := true;
      state := WaitResult;
    }

    /** The registers WAIT_RESULT sets when the finder is done. */
    method Load(bits: seq<bool>)
      requires Valid()
      modifies this`state, this`binaryValue, this`shiftCount, this`resultLen, this`resultIdx, bcd
      ensures Valid() && state == BcdConvert
      ensures binaryValue == bits && shiftCount == 0 && resultLen == 0 && resultIdx == 0
      ensures bcd[..] == ZeroDigits
    {
      forall i | 0 <= i < BcdDigits {
        bcd[i] := 0;
      }
      binaryValue, shiftCount, resultLen, resultIdx := bits, 0, 0, 0;
      state := BcdConvert;
      assert bcd[..] == ZeroDigits;
    }

    /** WAIT_RESULT: when the finder is done, `max_area >> 4` is loaded into
        the `area_width`-bit `binary_value` and the digits are cleared. */
    method WaitResultCycle(done: bool, maxArea: nat)
      requires Valid() && state == WaitResult
      modifies this`state, this`binaryValue, this`shiftCount, this`resultLen, this`resultIdx, bcd
      ensures Valid()
      ensures done ==> state == BcdConvert && binaryValue == ToBits(maxArea / 16, areaWidth)
                       && shiftCount == 0 && resultLen == 0 && resultIdx == 0 && bcd[..] == ZeroDigits
      ensures !done ==> state == WaitResult && binaryValue == old(binaryValue) && shiftCount == old(shiftCount)
                        && resultLen == old(resultLen) && resultIdx == old(resultIdx) && bcd[..] == old(bcd[..])
    {
      if done {
        Load(ToBits(maxArea / 16, areaWidth));
      }
    }

    /** WAIT_RESULT with `binary_value` at least 40 bits wide, so that
        bit 39 exists whatever `coord_width` is. */
    method WaitResultCycleWidened(done: bool, maxArea: nat)
      requires Valid() && state == WaitResult
      modifies this`state, this`binaryValue, this`shiftCount, this`resultLen, this`resultIdx, bcd
      ensures Valid()
      ensures done ==> state == BcdConvert && binaryValue == ToBits(maxArea / 16, Max(areaWidth, ConvertSteps))
                       && shiftCount == 0 && resultLen == 0 && resultIdx == 0 && bcd[..] == ZeroDigits
      ensures !done ==> state == WaitResult && binaryValue == old(binaryValue) && shiftCount == old(shiftCount)
                        && resultLen == old(resultLen) && resultIdx == old(resultIdx) && bcd[..] == old(bcd[..])
    {
      if done {
        Load(ToBits(maxArea / 16, Max(areaWidth, ConvertSteps)));
      }
    }

    /** A BCD_CONVERT cycle before the 40th: every digit is dabbled and
        shifted left taking the carry from below, bit 39 of `binary_value`
        going into the lowest digit, and `binary_value` shifts left. */
    method ShiftCycle()
      requires Valid() && state == BcdConvert && shiftCount < ConvertSteps
      modifies this`binaryValue, this`shiftCount, bcd
      ensures Valid()
      ensures bcd[..] == ShiftIn(old(bcd[..]), CarryIn(old(binaryValue)))
      ensures binaryValue == ShiftLeft(old(binaryValue)) && shiftCount == old(shiftCount) + 1
    {
      var next := ShiftIn(bcd[..], CarryIn(binaryValue));
      ShiftInValue(bcd[..], CarryIn(binaryValue));
      forall i | 0 <= i < BcdDigits {
        bcd[i] := next[i];
      }
      assert bcd[..] == next;
      binaryValue := ShiftLeft(binaryValue);
      shiftCount := shiftCount + 1;
    }

    /** The BCD_CONVERT cycle after the 40th: the digits go into
        `result_buffer` as characters and `result_len` counts them up to the
        highest nonzero one, or the buffer holds "0" when all are zero.  The
        buffer read from `result_len - 1` down is the decimal text of the
        digits. */
    method CompleteCycle()
      requires Valid() && state == BcdConvert && shiftCount >= ConvertSteps
      modifies this`state, this`resultLen, resultBuffer
      ensures Valid() && state == SendResult
      ensures resultLen == Max(SignificantLength(bcd[..]), 1)
      ensures Reversed(resultBuffer[..resultLen]) == ResultText(bcd[..])
    {
      var allZero := AllZero();
      if allZero {
        WriteZero();
      } else {
        WriteNumber();
      }
    }

    /** The all-zero branch: the buffer holds "0". */
    method WriteZero()
      requires Valid() && forall k :: 0 <= k < bcd.Length ==> bcd[k] == 0
      modifies this`state, this`resultLen, resultBuffer
      ensures Valid() && state == SendResult
      ensures resultLen == Max(SignificantLength(bcd[..]), 1)
      ensures Reversed(resultBuffer[..resultLen]) == ResultText(bcd[..])
      ensures resultBuffer[..] == old(resultBuffer[..])[0 := '0']
    {
      SignificantLengthUnique(bcd[..], 0);
      resultBuffer[0] := '0';
      resultLen := 1;
      assert resultBuffer[..resultLen] == "0";
      state := SendResult;
    }

    /** The other branch: every digit goes into the buffer and the length
        stops at the highest nonzero digit. */
    method WriteNumber()
      requires Valid() && exists k :: 0 <= k < bcd.Length && bcd[k] != 0
      modifies this`state, this`resultLen, resultBuffer
      ensures Valid() && state == SendResult
      ensures resultLen == Max(SignificantLength(bcd[..]), 1)
      ensures Reversed(resultBuffer[..resultLen]) == ResultText(bcd[..])
      ensures resultBuffer[..BcdDigits] == DigitChars(bcd[..])
      ensures resultBuffer[BcdDigits..] == old(resultBuffer[BcdDigits..])
    {
      ghost var s := bcd[..];
      assert SignificantLength(s) > 0 by {
        var k :| 0 <= k < BcdDigits && bcd[k] != 0;
        assert s[k] != 0;
      }
      ghost var n := SignificantLength(s);
      WriteDigits();
      resultLen := DigitCount();
      assert resultBuffer[..n] == DigitChars(s[..n]);
      ReversedDigitChars(s[..n]);
      state := SendResult;
    }

    /** `all_zero`: every digit is zero. */
    method AllZero() returns (allZero: bool)
      ensures allZero <==> forall k :: 0 <= k < bcd.Length ==> bcd[k] == 0
    {
      allZero := true;
      for i := 0 to bcd.Length
        invariant allZero <==> forall k :: 0 <= k < i ==> bcd[k] == 0
      {
        if bcd[i] != 0 {
          allZero := false;
        }
      }
    }

    /** Each digit goes into the buffer as its character. */
    method WriteDigits()
      requires Valid()
      modifies resultBuffer
      ensures resultBuffer[..BcdDigits] == DigitChars(bcd[..])
      ensures resultBuffer[BcdDigits..] == old(resultBuffer[BcdDigits..])
    {
      forall i | 0 <= i < BcdDigits {
        resultBuffer[i] := PolygonText.DigitChar(bcd[i]);
      }
    }

    /** The new `result_len`: the digits are scanned from the lowest up and
        the highest nonzero one sets the length. */
    method DigitCount() returns (len: nat)
      requires Valid()
      ensures len == SignificantLength(bcd[..])
    {
      len := 0;
      for i := 0 to BcdDigits
        invariant len <= i && (len == 0 || bcd[len - 1] != 0)
        invariant forall k :: len <= k < i ==> bcd[k] == 0
      {
        if bcd[i] != 0 {
          len := i + 1;
        }
      }
      SignificantLengthUnique(bcd[..], len);
    }

    /** A SEND_RESULT cycle: the next character, from the top of the
        buffer down, then LF; `ascii_out_ready` moves on. */
    method SendCycle(ready: bool) returns (ch: char)
      requires Valid() && state == SendResult
      modifies this`state, this`resultIdx
      ensures Valid()
      ensures old(resultIdx) < resultLen ==>
                ch == resultBuffer[resultLen - 1 - old(resultIdx)] && state == SendResult
                && resultIdx == old(resultIdx) + (if ready then 1 else 0)
      ensures old(resultIdx) >= resultLen ==>
                ch == '\n' && resultIdx == old(resultIdx) && state == (if ready then DoneState else SendResult)
    {
      if resultIdx < resultLen {
        ch := resultBuffer[resultLen - 1 - resultIdx];
        if ready {
          resultIdx := resultIdx + 1;
        }
      } else {
        ch := '\n';
        if ready {
          state := DoneState;
        }
      }
    }

    /** SEND_RESULT with `ascii_out_ready` high: the unsent characters and
        LF, after which the FSM is done. */
    method SendAll() returns (text: string)
      requires Valid() && state == SendResult
      modifies this`state, this`resultIdx
      ensures Valid() && state == DoneState && resultIdx == Max(old(resultIdx), resultLen)
      ensures text == old(Unsent()) + "\n"
    {
      ghost var pending := Unsent();
      ghost var start := resultIdx;
      text := [];
      while state == SendResult
        invariant Valid() && start <= resultIdx <= Max(start, resultLen)
        invariant start <= resultLen ==> |pending| == resultLen - start
        invariant start > resultLen ==> pending == [] && resultIdx == start
        invariant state == SendResult ==> text == pending[..resultIdx - start]
        invariant state != SendResult ==> state == DoneState && resultIdx == Max(start, resultLen) && text == pending + "\n"
        decreases resultLen - resultIdx, if state == SendResult then 1 else 0
      {
        var ch := SendCycle(true);
        if state == SendResult {
          assert pending[..resultIdx - start] == pending[..resultIdx - 1 - start] + [ch];
        } else {
          assert pending[..resultIdx - start] == pending;
        }
        text := text + [ch];
      }
    }

    /** The 40 BCD_CONVERT shift cycles on what WAIT_RESULT loaded: the
        digits end up holding the value of the bits shifted in. */
    method ShiftAll()
      requires Valid() && state == BcdConvert
      requires bcd[..] == ZeroDigits && shiftCount == 0
      modifies this`binaryValue, this`shiftCount, bcd
      ensures Valid() && shiftCount == ConvertSteps
      ensures Value(bcd[..]) == BitsValue(Low40(old(binaryValue)))
    {
      ghost var b := binaryValue;
      ConvertStart(b);
      while shiftCount < ConvertSteps
        invariant Valid()
        invariant Converting(bcd[..], binaryValue, b, shiftCount)
        decreases ConvertSteps - shiftCount
      {
        ConvertStep(bcd[..], binaryValue, b, shiftCount);
        ShiftCycle();
      }
    }

    /** The shift cycles, then the cycle that fills the buffer: the buffer
        read from the top down spells the value of the bits shifted in. */
    method Convert()
      requires Valid() && state == BcdConvert
      requires bcd[..] == ZeroDigits && shiftCount == 0
      modifies this`state, this`binaryValue, this`shiftCount, this`resultLen, bcd, resultBuffer
      ensures Valid() && state == SendResult && shiftCount == ConvertSteps
      ensures Reversed(resultBuffer[..resultLen]) == PolygonText.NatToString(BitsValue(Low40(old(binaryValue))))
    {
      ghost var number := BitsValue(Low40(binaryValue));
      ShiftAll();
      assert Value(bcd[..]) == number;
      CompleteCycle();
      ghost var digits := bcd[..];
      assert Reversed(resultBuffer[..resultLen]) == ResultText(digits);
      ResultTextValue(digits);
    }

    /** From WAIT_RESULT with the finder done to the end of the output, as
        written: the text is the conversion of `max_area >> 4` in an
        `area_width`-bit register, which is "0" whenever `area_width` is
        below 40. */
    method Respond(maxArea: nat) returns (text: string)
      requires Valid() && state == WaitResult
      modifies this`state, this`binaryValue, this`shiftCount, this`resultLen, this`resultIdx, bcd, resultBuffer
      ensures Valid() && state == DoneState
      ensures text == PolygonText.NatToString(Converted(maxArea / 16, areaWidth)) + "\n"
      ensures areaWidth < ConvertSteps ==> text == "0\n"
    {
      WaitResultCycle(true, maxArea);
      ghost var number := BitsValue(Low40(binaryValue));
      assert number == Converted(maxArea / 16, areaWidth);
      Convert();
      assert resultIdx == 0;
      assert Unsent() == PolygonText.NatToString(number);
      text := SendAll();
      if areaWidth < ConvertSteps {
        ConvertedNarrow(maxArea / 16, areaWidth);
        assert PolygonText.NatToString(number) == "0";
      }
    }

    /** The same with the widened `binary_value`: the text is the decimal
        numeral of `max_area >> 4` for every area a finder of up to 22-bit
        coordinates reports. */
    method RespondWidened(maxArea: nat) returns (text: string)
      requires Valid() && state == WaitResult
      modifies this`state, this`binaryValue, this`shiftCount, this`resultLen, this`resultIdx, bcd, resultBuffer
      ensures Valid() && state == DoneState
      ensures text == PolygonText.NatToString(Converted(maxArea / 16, Max(areaWidth, ConvertSteps))) + "\n"
      ensures maxArea < Pow2(areaWidth) && coordWidth <= 22 ==> text == PolygonText.NatToString(maxArea / 16) + "\n"
    {
      WaitResultCycleWidened(true, maxArea);
      ghost var number := BitsValue(Low40(binaryValue));
      assert number == Converted(maxArea / 16, Max(areaWidth, ConvertSteps));
      Convert();
      assert resultIdx == 0;
      assert Unsent() == PolygonText.NatToString(number);
      text := SendAll();
      if maxArea < Pow2(areaWidth) && coordWidth <= 22 {
        AreaQuotientFits(maxArea, areaWidth);
        ConvertedWide(maxArea / 16, Max(areaWidth, ConvertSteps));
      }
    }
  }

  /** BCD_CONVERT starts with cleared digits and nothing shifted in. */
  lemma ConvertStart(b: seq<bool>)
    ensures Converting(ZeroDigits, b, b, 0)
  {
    assert Taken(b, 0) == [];
    assert b[0..] + Zeros(0) == b;
    ZeroValue(ZeroDigits);
  }

  /** Cleared digits stand for 0. */
  lemma {:induction false} ZeroValue(s: seq<nat>)
    requires forall i :: 0 <= i < |s| ==> s[i] == 0
    ensures Value(s) == 0
  {
    if |s| > 0 {
      ZeroValue(s[1..]);
    }
  }

  /** `max_area >> 4` of an area of at most 44 bits fits in 40 bits. */
  lemma AreaQuotientFits(maxArea: nat, width: nat)
    requires maxArea < Pow2(width) && width <= 44
    ensures maxArea / 16 < Pow2(ConvertSteps)
  {
    Pow2Monotone(width, 44);
    Pow2Add(ConvertSteps, 4);
    assert Pow2(4) == 16;
  }

  /** On 16-bit coordinates the conversion as written turns the area 400
      (a 5-by-5 box of lattice points, reported as `max_area = 400`) into 0,
      where the widened register gives 25. */
  lemma NarrowAreaConvertsToZero()
    ensures Converted(400 / 16, 2 * 16) == 0
    ensures Converted(400 / 16, Max(2 * 16, ConvertSteps)) == 25
  {
    ConvertedNarrow(25, 32);
    Pow2Monotone(5, ConvertSteps);
    assert Pow2(5) == 32;
    ConvertedWide(25, 40);
  }

}
