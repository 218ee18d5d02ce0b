/** The maximum-rectangle finder (day_9/rtl/max_rectangle_finder.py): vertices
    stream into a block RAM, the search copies them once into the
    validator's RAM, then walks every vertex pair `i < j`, skipping
    degenerate candidates, pruning those whose area cannot beat the maximum,
    and validating the others; a valid candidate raises the maximum to its
    area as stored in the `2 * coord_width`-bit `cand_area` register.  The
    next validation starts at the vertex where the last one failed CHECK 1 or
    CHECK 2.

    The BRAM's one-cycle read latency and the prefetch pipeline are
    collapsed: a vertex is read when the FSM uses it. */
module MaxRectangleFinderRtl {
  import opened RectGeometry
  import opened Registers
  import opened PairSearch
  import ValidateRectangleRtl

  datatype FinderState =
    | Idle | LoadVertices | WaitStart | LoadPolyOnce | InitSearch | FetchJ | RegisterPair
    | GenerateRect | ValidateWait | NextRect | FetchI | Complete

  /** The validity test the finder applies: the validator's single-pass
      verdict on the loaded polygon. */
  function ValidatorTest(vs: seq<Point>, m: nat): Rect -> bool
  {
    r => |vs| > 0 && m > 0 && ValidateRectangleRtl.InsidePolygon(vs, r, m)
  }

  /** The `cand_area` register keeps the low `2 * coord_width` bits of
      `(w + 4) * (h + 4)`, which needs two more bits: a square candidate of
      side `2 ^ coord_width - 4` has area `2 ^ (2 * coord_width)`, stored as
      0. */
  lemma AreaRegisterOverflow(cw: nat)
    requires cw >= 3
    ensures var side := Pow2(cw) - 4;
            var r := Rect(0, 0, side, side);
            !Degenerate(r) && Area(r) == Pow2(2 * cw) && Stored(Truncated(2 * cw), Area(r)) == 0
  {
    var p := Pow2(cw);
    Pow2AtLeast8(cw);
    var r := Rect(0, 0, p - 4, p - 4);
    assert r.w + 4 == p && r.h + 4 == p;
    Pow2Add(cw, cw);
    var m := Pow2(2 * cw);
    assert Area(r) == p * p == m;
    ModRange(m, m);
    assert Stored(Truncated(2 * cw), m) == 0;
  }

  lemma Pow2AtLeast8(k: nat)
    requires k >= 3
    ensures Pow2(k) >= 8
  {
    if k > 3 {
      Pow2AtLeast8(k - 1);
    }
  }

  /** The registers the pair walk carries: the search registers and
      `start_vertex_reg`, the vertex the next validation's walk starts at. */
  datatype FinderRegs = FinderRegs(stats: SearchState, startVertex: nat)

  /** `start_vertex_reg` after a verdict: the failing edge's start vertex
      after CHECK 1 or CHECK 2, vertex 0 after a valid candidate or a CHECK 3
      failure. */
  function NextStart(o: ValidateRectangleRtl.Outcome): (sv: nat)
    ensures sv == 0 || sv == o.failEdgeIndex
  {
    if !o.isValid && (o.check1Fail || o.check2Fail) then o.failEdgeIndex else 0
  }

  /** The validator's verdicts on the polygon `vs`, by candidate and start
      vertex, for walks of `steps` steps. */
  function ValidatorVerdicts(vs: seq<Point>, m: nat, steps: nat): (Rect, nat) -> ValidateRectangleRtl.Outcome
    requires |vs| > 0 && m > 0
  {
    (r: Rect, sv: nat) => ValidateRectangleRtl.Verdict(vs, r, m, sv, steps)
  }

  /** One candidate's step in the finder: the pair search's `Visit` with the
      verdict on `r` from `start_vertex_reg`; a validated candidate leaves
      the start vertex for the next validation. */
  function FinderVisit(f: FinderRegs, r: Rect, verdicts: (Rect, nat) -> ValidateRectangleRtl.Outcome,
                       reg: AreaRegister): (next: FinderRegs)
    ensures Degenerate(r) || Area(r) <= f.stats.maxArea ==> next.startVertex == f.startVertex
    ensures !(Degenerate(r) || Area(r) <= f.stats.maxArea) ==> next.startVertex == NextStart(verdicts(r, f.startVertex))
  {
    if Degenerate(r) || Area(r) <= f.stats.maxArea then
      f.(stats := Visit(f.stats, r, _ => false, reg))
    else
      var o := verdicts(r, f.startVertex);
      FinderRegs(Visit(f.stats, r, _ => o.isValid, reg), NextStart(o))
  }

  /** The finder's walk from the pair `(i, j)` on, in the pair search's
      order. */
  function FinderSearchFrom(vs: seq<Point>, verdicts: (Rect, nat) -> ValidateRectangleRtl.Outcome, reg: AreaRegister,
                            i: nat, j: nat, f: FinderRegs): FinderRegs
    decreases |vs| - i, |vs| - j
  {
    if i >= |vs| then f
    else if j >= |vs| then FinderSearchFrom(vs, verdicts, reg, i + 1, i + 2, f)
    else FinderSearchFrom(vs, verdicts, reg, i, j + 1, FinderVisit(f, PairCandidate(vs, i, j), verdicts, reg))
  }

  /** The finder's whole walk with the validator's verdicts, from `(0, 1)`
      with cleared registers and the walk starting at vertex 0. */
  function FinderSearch(vs: seq<Point>, m: nat, steps: nat, reg: AreaRegister): FinderRegs
    requires |vs| > 0 && m > 0
  {
    FinderSearchFrom(vs, ValidatorVerdicts(vs, m, steps), reg, 0, 1, FinderRegs(Initial, 0))
  }

  /** The walk visits the pair `(i, j)` and moves on to `(i, j + 1)`. */
  lemma FinderSearchFromVisits(vs: seq<Point>, verdicts: (Rect, nat) -> ValidateRectangleRtl.Outcome, reg: AreaRegister,
                               i: nat, j: nat, f: FinderRegs)
    requires i < j < |vs|
    ensures FinderSearchFrom(vs, verdicts, reg, i, j, f)
            == FinderSearchFrom(vs, verdicts, reg, i, j + 1, FinderVisit(f, PairCandidate(vs, i, j), verdicts, reg))
  {
  }

  /** Past the last vertex a row ends: the walk goes on from `(i + 1, i + 2)`. */
  lemma FinderSearchFromRowEnd(vs: seq<Point>, verdicts: (Rect, nat) -> ValidateRectangleRtl.Outcome, reg: AreaRegister,
                               i: nat, j: nat, f: FinderRegs)
    requires i < |vs| <= j
    ensures FinderSearchFrom(vs, verdicts, reg, i, j, f) == FinderSearchFrom(vs, verdicts, reg, i + 1, i + 2, f)
  {
  }

  /** Past the last vertex of the last row the walk changes nothing. */
  lemma FinderSearchFromLastRowEnd(vs: seq<Point>, verdicts: (Rect, nat) -> ValidateRectangleRtl.Outcome, reg: AreaRegister,
                                   i: nat, j: nat, f: FinderRegs)
    requires |vs| - 2 <= i < |vs| <= j
    ensures FinderSearchFrom(vs, verdicts, reg, i, j, f) == f
  {
    FinderSearchFromRowEnd(vs, verdicts, reg, i, j, f);
  }

  /** Whichever walk the validator takes, every verdict's restart vertex
      is a vertex of the polygon, so `start_vertex_reg` stays on it. */
  lemma {:induction false} FinderSearchFromStartVertex(vs: seq<Point>, m: nat, steps: nat, reg: AreaRegister,
                                                       i: nat, j: nat, f: FinderRegs)
    requires |vs| > 0 && m > 0 && f.startVertex < |vs|
    ensures FinderSearchFrom(vs, ValidatorVerdicts(vs, m, steps), reg, i, j, f).startVertex < |vs|
    decreases |vs| - i, |vs| - j
  {
    if i >= |vs| {
    } else if j >= |vs| {
      FinderSearchFromStartVertex(vs, m, steps, reg, i + 1, i + 2, f);
    } else {
      var next := FinderVisit(f, PairCandidate(vs, i, j), ValidatorVerdicts(vs, m, steps), reg);
      FinderSearchFromStartVertex(vs, m, steps, reg, i, j + 1, next);
    }
  }

  /** With the single-pass walk a candidate's step is the pair search's
      step with the polygon test, wherever the walk starts, and the start
      vertex stays on the polygon. */
  lemma FinderVisitSinglePass(f: FinderRegs, r: Rect, vs: seq<Point>, m: nat, reg: AreaRegister)
    requires |vs| > 0 && m > 0 && f.startVertex < |vs|
    ensures var next := FinderVisit(f, r, ValidatorVerdicts(vs, m, |vs|), reg);
            next.stats == Visit(f.stats, r, ValidatorTest(vs, m), reg) && next.startVertex < |vs|
  {
    if !(Degenerate(r) || Area(r) <= f.stats.maxArea) {
      ValidateRectangleRtl.SinglePassVerdict(vs, r, m, f.startVertex);
    }
  }

  /** With the single-pass walk the start vertex the finder carries from one
      validation to the next changes no verdict: its walk is the pair search
      with the polygon test. */
  lemma {:induction false} FinderSearchFromSinglePass(vs: seq<Point>, m: nat, reg: AreaRegister, i: nat, j: nat, f: FinderRegs)
    requires |vs| > 0 && m > 0 && f.startVertex < |vs|
    ensures FinderSearchFrom(vs, ValidatorVerdicts(vs, m, |vs|), reg, i, j, f).stats
            == SearchFrom(vs, ValidatorTest(vs, m), reg, i, j, f.stats)
    decreases |vs| - i, |vs| - j
  {
    if i >= |vs| {
    } else if j >= |vs| {
      FinderSearchFromSinglePass(vs, m, reg, i + 1, i + 2, f);
    } else {
      var r := PairCandidate(vs, i, j);
      FinderVisitSinglePass(f, r, vs, m, reg);
      FinderSearchFromSinglePass(vs, m, reg, i, j + 1, FinderVisit(f, r, ValidatorVerdicts(vs, m, |vs|), reg));
    }
  }

  lemma FinderSearchSinglePass(vs: seq<Point>, m: nat, reg: AreaRegister)
    requires |vs| > 0 && m > 0
    ensures FinderSearch(vs, m, |vs|, reg).stats == Search(vs, ValidatorTest(vs, m), reg)
  {
    FinderSearchFromSinglePass(vs, m, reg, 0, 1, FinderRegs(Initial, 0));
  }

  class MaxRectangleFinder {
    const coordWidth: nat
    const maxVertices: nat
    /** `(max_vertices - 1).bit_length()`, the width of the address registers. */
    const addrWidth: nat
    /** `2 ^ coord_width`: the coordinate registers hold values below it. */
    const modulus: nat
    /** The vertex BRAM. */
    const mem: array<Point>
    const validator: ValidateRectangleRtl.ValidateRectangle
    /** Whether the validator walks each edge once (the corrected walk) rather
        than the `n + 1` steps the validator takes as written. */
    const singlePassWalk: bool

    var state: FinderState
    var numVertices: nat
    var writeAddr: nat
    var polyLoadAddr: nat
    var rectI: nat
    var rectJ: nat
    var startVertexReg: nat
    var maxAreaReg: int
    var validFound: bool
    var rectCount: nat
    var prunedCount: nat
    /** How many candidates the validator accepted; `valid_found` is its
        being non-zero. */
    ghost var validCount: nat

    // Outputs.
    var done: bool
    var valid: bool
    var maxArea: int
    var rectanglesTested: nat
    var rectanglesPruned: nat
    var verticesLoaded: nat

    ghost predicate Valid()
      reads validator
    {
      16 <= coordWidth <= 32 && 3 <= maxVertices <= 8192 && modulus == Pow2(coordWidth)
      && maxVertices <= Pow2(addrWidth) && mem.Length == maxVertices
      && validator.Valid() && validator.coordWidth == coordWidth && validator.maxVertices == maxVertices
      && validator.modulus == modulus && validator.mem != mem
    }

    /** The loaded polygon. */
    ghost function Polygon(): seq<Point>
      reads this`numVertices, mem
      requires numVertices <= mem.Length
    {
      mem[..numVertices]
    }

    /** The search registers as the pair search names them. */
    ghost function Stats(): SearchState
      reads this`maxAreaReg, this`validCount, this`rectCount, this`prunedCount
    {
      SearchState(maxAreaReg, validCount, rectCount, prunedCount)
    }

    /** The registers the pair walk carries. */
    ghost function Regs(): FinderRegs
      reads this`maxAreaReg, this`validCount, this`rectCount, this`prunedCount, this`startVertexReg
    {
      FinderRegs(Stats(), startVertexReg)
    }

    /** How many steps a validation's walk takes. */
    function Steps(): nat
      reads this`numVertices
    {
      StepsFor(numVertices)
    }

    /** The steps of a walk around `n` vertices. */
    function StepsFor(n: nat): nat
    {
      if singlePassWalk then n else n + 1
    }

    /** A coordinate pair fits the `coord_width`-bit vertex ports. */
    predicate InRange(v: Point)
    {
      0 <= v.x < modulus && 0 <= v.y < modulus
    }

    /** The search's validity test and area register. */
    ghost function Test(): Rect -> bool
      reads this`numVertices, mem
      requires numVertices <= mem.Length
    {
      ValidatorTest(Polygon(), modulus)
    }

    function AreaReg(): AreaRegister
    {
      Truncated(2 * coordWidth)
    }

    /** Elaboration: a `ValueError` on out-of-range parameters; the FSM in
        IDLE with a fresh validator and a vertex RAM of zeros. */
    constructor(coordWidth: nat, maxVertices: nat, singlePassWalk: bool)
      requires ValidateRectangleRtl.CheckParameters(coordWidth, maxVertices).Success?
      ensures Valid() && state == Idle && validator.state == ValidateRectangleRtl.Idle && !done
      ensures this.coordWidth == coordWidth && this.maxVertices == maxVertices && this.singlePassWalk == singlePassWalk
      ensures fresh(mem) && fresh(validator) && fresh(validator.mem)
      ensures mem[..] == seq(maxVertices, _ => Point(0, 0))
    {
      this.coordWidth := coordWidth;
      this.maxVertices := maxVertices;
      this.singlePassWalk := singlePassWalk;
      addrWidth := BitLength(maxVertices - 1);
      modulus := Pow2(coordWidth);
      mem := new Point[maxVertices](_ => Point(0, 0));
      validator := new ValidateRectangleRtl.ValidateRectangle(coordWidth, maxVertices);
      state := Idle;
      done, valid, maxArea := false, false, 0;
    }

    /** One IDLE cycle: a valid vertex is written at address 0 and loading
        begins with one vertex; otherwise the address and count are cleared.
        `done` falls either way. */
    method IdleCycle(vertexValid: bool, vertex: Point)
      requires Valid() && state == Idle
      requires vertexValid ==> InRange(vertex)
      modifies this, mem
      ensures Valid() && !done
      ensures vertexValid ==> state == LoadVertices && numVertices == 1 && writeAddr == 1 && Polygon() == [vertex]
                              && mem[..] == old(mem[..])[0 := vertex]
      ensures !vertexValid ==> state == Idle && numVertices == 0 && writeAddr == 0 && mem[..] == old(mem[..])
    {
      done := false;
      if vertexValid {
        mem[0] := vertex;
        writeAddr, numVertices := 1, 1;
        state := LoadVertices;
      } else {
        writeAddr, numVertices := 0, 0;
      }
    }

    /** One LOAD_VERTICES cycle as written: a valid vertex sets the count to
        `write_addr + 1` and advances the `addr_width`-bit `write_addr`; it is
        written at `write_addr` unless `vertex_last` is high, when the later
        `write_port.en.eq(0)` overrides the enable: the last vertex is
        counted but not stored, and the polygon ends with whatever the RAM
        held at its address. */
    method LoadCycle(vertexValid: bool, vertexLast: bool, vertex: Point)
      requires Valid() && state == LoadVertices && 1 <= numVertices <= Pow2(addrWidth)
      requires writeAddr == Wrap(numVertices, Pow2(addrWidth))
      requires vertexValid ==> InRange(vertex)
      modifies this, mem
      ensures Valid() && done == old(done) && 1 <= numVertices <= Pow2(addrWidth)
      ensures writeAddr == Wrap(numVertices, Pow2(addrWidth))
      ensures numVertices == if vertexValid then old(writeAddr) + 1 else old(numVertices)
      ensures state == if vertexValid && vertexLast then WaitStart else LoadVertices
      ensures mem[..] == if vertexValid && !vertexLast then PortWrite(old(mem[..]), old(writeAddr), vertex) else old(mem[..])
      ensures vertexValid && !vertexLast && old(numVertices) < maxVertices ==> Polygon() == old(Polygon()) + [vertex]
      ensures vertexValid && vertexLast && old(numVertices) < maxVertices
              ==> Polygon() == old(Polygon()) + [old(mem[numVertices])]
    {
      if vertexValid {
        if !vertexLast {
          WriteVertex(writeAddr, vertex);
        }
        numVertices := writeAddr + 1;
        writeAddr := Wrap(writeAddr + 1, Pow2(addrWidth));
        if vertexLast {
          state := WaitStart;
        }
      }
    }

    /** The LOAD_VERTICES cycle the design describes: the last vertex is
        written like every other. */
    method LoadCycleIntended(vertexValid: bool, vertexLast: bool, vertex: Point)
      requires Valid() && state == LoadVertices && 1 <= numVertices <= Pow2(addrWidth)
      requires writeAddr == Wrap(numVertices, Pow2(addrWidth))
      requires vertexValid ==> InRange(vertex)
      modifies this, mem
      ensures Valid() && done == old(done) && 1 <= numVertices <= Pow2(addrWidth)
      ensures writeAddr == Wrap(numVertices, Pow2(addrWidth))
      ensures numVertices == if vertexValid then old(writeAddr) + 1 else old(numVertices)
      ensures state == if vertexValid && vertexLast then WaitStart else LoadVertices
      ensures mem[..] == if vertexValid then PortWrite(old(mem[..]), old(writeAddr), vertex) else old(mem[..])
      ensures vertexValid && old(numVertices) < maxVertices ==> Polygon() == old(Polygon()) + [vertex]
    {
      if vertexValid {
        WriteVertex(writeAddr, vertex);
        numVertices := writeAddr + 1;
        writeAddr := Wrap(writeAddr + 1, Pow2(addrWidth));
        if vertexLast {
          state := WaitStart;
        }
      }
    }

    /** The write port: the address keeps its low `addr_width` bits and a
        write past the depth is dropped. */
    method WriteVertex(addr: nat, v: Point)
      modifies mem
      ensures mem[..] == PortWrite(old(mem[..]), addr, v)
    {
      var p := Pow2(RangeWidth(mem.Length));
      ModRange(addr, p);
      if addr % p < mem.Length {
        mem[addr % p] := v;
      }
    }

    /** IDLE and LOAD_VERTICES for the stream `vs`, `vertex_valid` high on
        every beat and `vertex_last` with the final one: as written, the
        polygon is `vs` with its last vertex replaced by what the RAM held at
        that address. */
    method LoadPolygon(vs: seq<Point>)
      requires Valid() && state == Idle && 2 <= |vs| <= maxVertices
      requires forall k :: 0 <= k < |vs| ==> InRange(vs[k])
      modifies this, mem
      ensures Valid() && state == WaitStart && numVertices == |vs| && !done
      ensures Polygon() == vs[..|vs| - 1] + [old(mem[|vs| - 1])]
    {
      IdleCycle(true, vs[0]);
      var k := 1;
      while k < |vs| - 1
        invariant 1 <= k <= |vs| - 1
        invariant Valid() && state == LoadVertices && numVertices == k && writeAddr == k && !done
        invariant Polygon() == vs[..k] && mem[|vs| - 1] == old(mem[|vs| - 1])
      {
        LoadCycle(true, false, vs[k]);
        assert vs[..k + 1] == vs[..k] + [vs[k]];
        k := k + 1;
      }
      LoadCycle(true, true, vs[k]);
    }

    /** The same stream with the intended load: the polygon is `vs`. */
    method LoadPolygonIntended(vs: seq<Point>)
      requires Valid() && state == Idle && 2 <= |vs| <= maxVertices
      requires forall k :: 0 <= k < |vs| ==> InRange(vs[k])
      modifies this, mem
      ensures Valid() && state == WaitStart && numVertices == |vs| && !done
      ensures Polygon() == vs
    {
      IdleCycle(true, vs[0]);
      var k := 1;
      while k < |vs| - 1
        invariant 1 <= k <= |vs| - 1
        invariant Valid() && state == LoadVertices && numVertices == k && writeAddr == k && !done
        invariant Polygon() == vs[..k]
      {
        LoadCycleIntended(true, false, vs[k]);
        assert vs[..k + 1] == vs[..k] + [vs[k]];
        k := k + 1;
      }
      LoadCycleIntended(true, true, vs[k]);
      assert vs[..k + 1] == vs;
    }

    /** One WAIT_START cycle: `start_search` clears the search registers and
        begins copying the polygon; without it no register changes. */
    method WaitStartCycle(startSearch: bool)
      requires Valid() && state == WaitStart
      modifies this
      ensures Valid() && numVertices == old(numVertices)
      ensures startSearch ==> state == LoadPolyOnce && polyLoadAddr == 0 && startVertexReg == 0
                              && rectI == 0 && rectJ == 1 && Stats() == Initial && !validFound
      ensures !startSearch ==> state == WaitStart && unchanged(this)
      ensures done == old(done) && writeAddr == old(writeAddr)
    {
      if startSearch {
        rectI, rectJ := 0, 1;
        rectCount, prunedCount, maxAreaReg, validFound := 0, 0, 0, false;
        validCount := 0;
        polyLoadAddr, startVertexReg := 0, 0;
        state := LoadPolyOnce;
      }
    }

    /** LOAD_POLY_ONCE: the polygon is copied into the validator's RAM,
        one vertex per cycle. */
    method LoadPoly()
      requires Valid() && state == LoadPolyOnce && polyLoadAddr == 0
      requires 2 <= numVertices <= maxVertices && validator.state == ValidateRectangleRtl.Idle
      modifies this, validator, validator.mem
      ensures Valid() && 2 <= numVertices <= maxVertices && numVertices == old(numVertices)
      ensures state == InitSearch && validator.state == ValidateRectangleRtl.Idle
      ensures validator.mem[..numVertices] == Polygon()
      ensures Stats() == old(Stats()) && validFound == old(validFound)
      ensures rectI == old(rectI) && rectJ == old(rectJ) && startVertexReg == old(startVertexReg)
    {
      while state == LoadPolyOnce
        invariant Valid() && validator.state == ValidateRectangleRtl.Idle
        invariant 2 <= numVertices <= maxVertices && numVertices == old(numVertices)
        invariant state == LoadPolyOnce || state == InitSearch
        invariant Stats() == old(Stats()) && validFound == old(validFound)
        invariant rectI == old(rectI) && rectJ == old(rectJ) && startVertexReg == old(startVertexReg)
        invariant state == LoadPolyOnce ==> polyLoadAddr < numVertices
                                            && validator.mem[..polyLoadAddr] == mem[..polyLoadAddr]
        invariant state == InitSearch ==> validator.mem[..numVertices] == mem[..numVertices]
        decreases if state == LoadPolyOnce then numVertices - polyLoadAddr else 0
      {
        LoadPolyCycle();
      }
    }

    /** One LOAD_POLY_ONCE cycle: vertex `poly_load_addr` is written into
        the validator's RAM through its load port; the last one moves on to
        INIT_SEARCH. */
    method LoadPolyCycle()
      requires Valid() && state == LoadPolyOnce && validator.state == ValidateRectangleRtl.Idle
      requires 2 <= numVertices <= maxVertices && polyLoadAddr < numVertices
      requires validator.mem[..polyLoadAddr] == mem[..polyLoadAddr]
      modifies this, validator, validator.mem
      ensures Valid() && validator.state == ValidateRectangleRtl.Idle
      ensures numVertices == old(numVertices) && Stats() == old(Stats()) && validFound == old(validFound)
      ensures rectI == old(rectI) && rectJ == old(rectJ) && startVertexReg == old(startVertexReg)
      ensures state == LoadPolyOnce ==> polyLoadAddr == old(polyLoadAddr) + 1 < numVertices
                                        && validator.mem[..polyLoadAddr] == mem[..polyLoadAddr]
      ensures state != LoadPolyOnce ==> state == InitSearch && validator.mem[..numVertices] == mem[..numVertices]
    {
      var a := polyLoadAddr;
      validator.LoadVertexCycle(a, mem[a]);
      assert validator.mem[..a + 1] == mem[..a + 1];
      if a == numVertices - 1 {
        state := InitSearch;
      }
      assert a + 1 <= maxVertices <= Pow2(addrWidth);
      polyLoadAddr := Wrap(a + 1, Pow2(addrWidth));
    }

    /** GENERATE_RECT's `start` pulse with the candidate, the vertex count
        and `start_vertex_reg`, then VALIDATE_WAIT until `done`: the verdict
        is the validator's on the loaded polygon `vs` from the start vertex,
        as written a walk of `n + 1` steps; with the single-pass walk it is
        the polygon test, whatever the start vertex. */
    method Validate(candidate: Rect, ghost vs: seq<Point>) returns (outcome: ValidateRectangleRtl.Outcome)
      requires Valid() && validator.state == ValidateRectangleRtl.Idle
      requires 2 <= numVertices <= maxVertices && startVertexReg < numVertices
      requires validator.mem[..numVertices] == vs
      modifies validator, validator.mem
      ensures Valid() && validator.state == ValidateRectangleRtl.Idle
      ensures validator.mem[..numVertices] == vs
      ensures outcome == ValidateRectangleRtl.Verdict(vs, candidate, modulus, startVertexReg, Steps())
      ensures singlePassWalk ==> (outcome.isValid <==> ValidatorTest(vs, modulus)(candidate))
    {
      validator.StartRunCycle(candidate, numVertices, startVertexReg);
      assert validator.Running() && validator.Polygon() == vs;
      assert validator.rect == candidate && validator.startVertex == startVertexReg && validator.modulus == modulus;
      if singlePassWalk {
        validator.Run();
        assert Steps() == numVertices;
      } else {
        validator.RunAsWritten();
        assert Steps() == numVertices + 1;
      }
      outcome := validator.out;
      assert validator.mem[..numVertices] == vs;
    }

    /** REGISTER_PAIR, GENERATE_RECT and VALIDATE_WAIT for the pair `(i, j)`
        with vertices `vi` and `vj`: the candidate is their bounding box; a
        degenerate one is skipped, one whose full-precision area does not
        exceed `max_area_reg` is pruned, and any other is validated from
        `start_vertex_reg`.  A valid candidate raises the maximum to the
        truncated `cand_area` if larger and restarts the walk at vertex 0; a
        CHECK 1 or CHECK 2 failure restarts it at the failing vertex; a
        CHECK 3 failure at vertex 0.  The registers take exactly the finder's
        step, which with the single-pass walk is the pair search's. */
    method CandidateCycles(i: nat, j: nat, vi: Point, vj: Point, ghost vs: seq<Point>)
      requires Walking(vs)
      requires i < j < numVertices && vi == vs[i] && vj == vs[j]
      modifies this, validator, validator.mem
      ensures Walking(vs) && numVertices == old(numVertices)
      ensures state == old(state) && rectI == old(rectI) && rectJ == old(rectJ)
      ensures Regs() == FinderVisit(old(Regs()), PairCandidate(vs, i, j), ValidatorVerdicts(vs, modulus, StepsFor(|vs|)), AreaReg())
      ensures singlePassWalk ==> Stats() == Visit(old(Stats()), PairCandidate(vs, i, j), ValidatorTest(vs, modulus), AreaReg())
    {
      var minX, maxX := Min(vi.x, vj.x), Max(vi.x, vj.x);
      var minY, maxY := Min(vi.y, vj.y), Max(vi.y, vj.y);
      var candidate := Rect(minX, minY, maxX - minX, maxY - minY);
      var candidateArea := Area(candidate);
      ghost var f := Regs();
      assert candidate == PairCandidate(vs, i, j);
      if candidate.w == 0 || candidate.h == 0 {
      } else if candidateArea <= maxAreaReg {
        prunedCount := prunedCount + 1;
      } else {
        ValidateCandidate(candidate, candidateArea, vs);
      }
      if singlePassWalk {
        FinderVisitSinglePass(f, candidate, vs, modulus, AreaReg());
      }
    }

    /** GENERATE_RECT's validation and VALIDATE_WAIT for a candidate that is
        neither skipped nor pruned: the verdict is recorded with the area
        truncated to `cand_area`. */
    method ValidateCandidate(candidate: Rect, candidateArea: int, ghost vs: seq<Point>)
      requires Walking(vs) && !Degenerate(candidate) && candidateArea == Area(candidate) > maxAreaReg
      modifies this, validator, validator.mem
      ensures Walking(vs) && numVertices == old(numVertices)
      ensures state == old(state) && rectI == old(rectI) && rectJ == old(rectJ)
      ensures Regs() == FinderVisit(old(Regs()), candidate, ValidatorVerdicts(vs, modulus, StepsFor(|vs|)), AreaReg())
    {
      var outcome := Validate(candidate, vs);
      var candArea := Wrap(candidateArea, Pow2(2 * coordWidth));
      assert candArea == Stored(AreaReg(), Area(candidate));
      RecordVerdict(outcome, candArea);
    }

    /** VALIDATE_WAIT when `done` rises: the candidate counts as tested; a
        valid one raises `max_area_reg` to `cand_area` if larger, sets
        `valid_found` and restarts the walk at vertex 0; a CHECK 1 or CHECK 2
        failure restarts it at the failing vertex, a CHECK 3 failure at 0. */
    method RecordVerdict(outcome: ValidateRectangleRtl.Outcome, candArea: int)
      requires validFound == (validCount > 0) && startVertexReg < numVertices
      requires outcome.check1Fail || outcome.check2Fail ==> outcome.failEdgeIndex < numVertices
      modifies this
      ensures validFound == (validCount > 0) && startVertexReg == NextStart(outcome) < numVertices
      ensures numVertices == old(numVertices) && state == old(state) && rectI == old(rectI) && rectJ == old(rectJ)
      ensures Stats() == if outcome.isValid
                         then old(Stats()).(maxArea := if candArea > old(maxAreaReg) then candArea else old(maxAreaReg),
                                            validCount := old(validCount) + 1, tested := old(rectCount) + 1)
                         else old(Stats()).(tested := old(rectCount) + 1)
    {
      rectCount := rectCount + 1;
      if outcome.isValid {
        if candArea > maxAreaReg {
          maxAreaReg := candArea;
        }
        validFound := true;
        validCount := validCount + 1;
        startVertexReg := 0;
      } else if outcome.check1Fail || outcome.check2Fail {
        startVertexReg := outcome.failEdgeIndex;
      } else {
        startVertexReg := 0;
      }
    }

    /** INIT_SEARCH through NEXT_RECT: the pairs in the order `(0, 1), ...,
        (0, n - 1), (1, 2), ...`, `j` advancing first and `i` when `j + 1`
        reaches the count, until `i + 1` reaches `n - 1`.  The registers end
        as the finder's walk leaves them, which with the single-pass walk is
        the pair search's result. */
    method SearchPairs()
      requires Valid() && state == InitSearch && validator.state == ValidateRectangleRtl.Idle
      requires 2 <= numVertices <= maxVertices && validator.mem[..numVertices] == Polygon()
      requires rectI == 0 && rectJ == 1 && startVertexReg == 0 && Stats() == Initial && !validFound
      modifies this, validator, validator.mem
      ensures Valid() && state == Complete && validator.state == ValidateRectangleRtl.Idle
      ensures numVertices == old(numVertices) && validFound == (validCount > 0)
      ensures Regs() == FinderSearch(Polygon(), modulus, Steps(), AreaReg())
      ensures singlePassWalk ==> Stats() == Search(Polygon(), Test(), AreaReg())
    {
      ghost var vs := Polygon();
      ghost var verdicts := ValidatorVerdicts(vs, modulus, StepsFor(|vs|));
      ghost var result := FinderSearch(vs, modulus, Steps(), AreaReg());
      if singlePassWalk {
        FinderSearchSinglePass(vs, modulus, AreaReg());
      }
      var vi := mem[0];
      state := FetchJ;
      while state != Complete
        invariant Walking(vs) && numVertices == old(numVertices) && (state == FetchJ || state == Complete)
        invariant verdicts == ValidatorVerdicts(vs, modulus, StepsFor(|vs|))
        invariant state == FetchJ ==> PairAt(vs, verdicts, result, vi)
        invariant state == Complete ==> Regs() == result
        decreases if state == FetchJ then numVertices - rectI else 0, if state == FetchJ then numVertices - rectJ else 0
      {
        vi := PairStep(vi, vs, verdicts, result);
      }
    }

    /** The search registers during the pair walk on the polygon `vs`. */
    ghost predicate Walking(vs: seq<Point>)
      reads validator, validator.mem, mem, this`numVertices, this`startVertexReg, this`validFound, this`validCount
    {
      Valid() && validator.state == ValidateRectangleRtl.Idle && 2 <= numVertices <= maxVertices
      && vs == Polygon() && validator.mem[..numVertices] == vs
      && startVertexReg < numVertices && validFound == (validCount > 0)
    }

    /** About to fetch `j` of the pair `(i, j)`, with `vi` the `i`-th vertex
        and the rest of the walk ending in `result`. */
    ghost predicate PairAt(vs: seq<Point>, verdicts: (Rect, nat) -> ValidateRectangleRtl.Outcome, result: FinderRegs, vi: Point)
      reads this
    {
      rectI < rectJ < |vs| && vi == vs[rectI] && startVertexReg < |vs|
      && FinderSearchFrom(vs, verdicts, AreaReg(), rectI, rectJ, Regs()) == result
    }

    /** FETCH_J, the candidate's cycles and NEXT_RECT (with FETCH_I when a
        row ends): the walk moves to the next pair, or to COMPLETE after the
        last one. */
    method PairStep(vi: Point, ghost vs: seq<Point>, ghost verdicts: (Rect, nat) -> ValidateRectangleRtl.Outcome, ghost result: FinderRegs) returns (vi': Point)
      requires Walking(vs) && state == FetchJ && PairAt(vs, verdicts, result, vi)
      requires verdicts == ValidatorVerdicts(vs, modulus, StepsFor(|vs|))
      modifies this, validator, validator.mem
      ensures Walking(vs) && numVertices == old(numVertices) && (state == FetchJ || state == Complete)
      ensures state == FetchJ ==> PairAt(vs, verdicts, result, vi')
                                  && (rectI > old(rectI) || (rectI == old(rectI) && rectJ > old(rectJ)))
      ensures state == Complete ==> Regs() == result
    {
      VisitPair(vi, vs, verdicts, result);
      vi' := NextPair(vi, vs, verdicts, result);
    }

    /** Having visited the pair `(i, j)`, with `vi` the `i`-th vertex and
        the rest of the walk from `(i, j + 1)` ending in `result`. */
    ghost predicate PairVisited(vs: seq<Point>, verdicts: (Rect, nat) -> ValidateRectangleRtl.Outcome, result: FinderRegs, vi: Point)
      reads this
    {
      rectI < rectJ < |vs| && vi == vs[rectI] && startVertexReg < |vs|
      && FinderSearchFrom(vs, verdicts, AreaReg(), rectI, rectJ + 1, Regs()) == result
    }

    /** FETCH_J and the candidate's cycles for the current pair. */
    method VisitPair(vi: Point, ghost vs: seq<Point>, ghost verdicts: (Rect, nat) -> ValidateRectangleRtl.Outcome, ghost result: FinderRegs)
      requires Walking(vs) && state == FetchJ && PairAt(vs, verdicts, result, vi)
      requires verdicts == ValidatorVerdicts(vs, modulus, StepsFor(|vs|))
      modifies this, validator, validator.mem
      ensures Walking(vs) && numVertices == old(numVertices) && state == FetchJ
      ensures rectI == old(rectI) && rectJ == old(rectJ) && PairVisited(vs, verdicts, result, vi)
    {
      var vj := mem[rectJ];
      FinderSearchFromVisits(vs, verdicts, AreaReg(), rectI, rectJ, Regs());
      CandidateCycles(rectI, rectJ, vi, vj, vs);
    }

    /** NEXT_RECT (with FETCH_I when a row ends): `j` advances, or the next
        row starts at `(i + 1, i + 2)` with its first vertex fetched, or the
        walk goes to COMPLETE after the last row. */
    method NextPair(vi: Point, ghost vs: seq<Point>, ghost verdicts: (Rect, nat) -> ValidateRectangleRtl.Outcome, ghost result: FinderRegs) returns (vi': Point)
      requires Walking(vs) && state == FetchJ && PairVisited(vs, verdicts, result, vi)
      modifies this
      ensures Walking(vs) && numVertices == old(numVertices) && (state == FetchJ || state == Complete)
      ensures state == FetchJ ==> PairAt(vs, verdicts, result, vi')
                                  && (rectI > old(rectI) || (rectI == old(rectI) && rectJ > old(rectJ)))
      ensures state == Complete ==> Regs() == result
    {
      vi' := vi;
      if rectJ + 1 >= numVertices {
        if rectI + 1 >= numVertices - 1 {
          FinishWalk(vi, vs, verdicts, result);
        } else {
          vi' := NextRow(vi, vs, verdicts, result);
        }
      } else {
        NextColumn(vi, vs, verdicts, result);
      }
    }

    /** NEXT_RECT within a row: `j` advances. */
    method NextColumn(vi: Point, ghost vs: seq<Point>, ghost verdicts: (Rect, nat) -> ValidateRectangleRtl.Outcome, ghost result: FinderRegs)
      requires Walking(vs) && state == FetchJ && PairVisited(vs, verdicts, result, vi) && rectJ + 1 < numVertices
      modifies this
      ensures Walking(vs) && numVertices == old(numVertices) && state == FetchJ && PairAt(vs, verdicts, result, vi)
      ensures rectI == old(rectI) && rectJ == old(rectJ) + 1
    {
      rectJ := rectJ + 1;
    }

    /** NEXT_RECT after the last pair: the walk goes to COMPLETE. */
    method FinishWalk(vi: Point, ghost vs: seq<Point>, ghost verdicts: (Rect, nat) -> ValidateRectangleRtl.Outcome, ghost result: FinderRegs)
      requires Walking(vs) && state == FetchJ && PairVisited(vs, verdicts, result, vi)
      requires rectJ + 1 >= numVertices && rectI + 1 >= numVertices - 1
      modifies this
      ensures Walking(vs) && numVertices == old(numVertices) && state == Complete && Regs() == result
    {
      FinderSearchFromLastRowEnd(vs, verdicts, AreaReg(), rectI, rectJ + 1, Regs());
      state := Complete;
    }

    /** FETCH_I: the pair `(i + 1, i + 2)` with vertex `i + 1` fetched. */
    method NextRow(vi: Point, ghost vs: seq<Point>, ghost verdicts: (Rect, nat) -> ValidateRectangleRtl.Outcome, ghost result: FinderRegs) returns (vi': Point)
      requires Walking(vs) && state == FetchJ && PairVisited(vs, verdicts, result, vi)
      requires rectJ + 1 >= numVertices && rectI + 1 < numVertices - 1
      modifies this
      ensures Walking(vs) && numVertices == old(numVertices) && state == FetchJ && PairAt(vs, verdicts, result, vi')
      ensures rectI == old(rectI) + 1
    {
      FinderSearchFromRowEnd(vs, verdicts, AreaReg(), rectI, rectJ + 1, Regs());
      vi' := FetchRow(vs);
    }

    /** The registers of FETCH_I. */
    method FetchRow(ghost vs: seq<Point>) returns (vi': Point)
      requires Walking(vs) && state == FetchJ && rectI + 2 < |vs|
      modifies this
      ensures Walking(vs) && numVertices == old(numVertices) && state == FetchJ && Regs() == old(Regs())
      ensures rectI == old(rectI) + 1 && rectJ == old(rectI) + 2 && vi' == vs[rectI]
    {
      rectI, rectJ := rectI + 1, rectI + 2;
      vi' := mem[rectI];
    }

    /** COMPLETE: the results are published and the FSM returns to IDLE. */
    method CompleteCycle()
      requires Valid() && state == Complete
      modifies this
      ensures Valid() && state == Idle && done
      ensures valid == validFound && maxArea == maxAreaReg && rectanglesTested == rectCount
      ensures rectanglesPruned == prunedCount && verticesLoaded == numVertices
      ensures numVertices == old(numVertices) && Stats() == old(Stats()) && validFound == old(validFound)
    {
      done, valid, maxArea := true, validFound, maxAreaReg;
      rectanglesTested, rectanglesPruned, verticesLoaded := rectCount, prunedCount, numVertices;
      state := Idle;
    }

    /** A whole search, from `start_search` in WAIT_START to the return to
        IDLE: the outputs are the finder's walk over the loaded polygon with
        the validator's verdicts.  With the single-pass walk they are the
        pair search's result with the polygon test, and when every
        candidate's area fits the register `max_area` is the largest area of
        a valid candidate (0 if none) and `valid` says whether one exists. */
    method RunSearch()
      requires Valid() && state == WaitStart && 2 <= numVertices <= maxVertices
      requires validator.state == ValidateRectangleRtl.Idle
      modifies this, validator, validator.mem
      ensures Valid() && state == Idle && done && numVertices == old(numVertices) && verticesLoaded == numVertices
      ensures var res := FinderSearch(Polygon(), modulus, Steps(), AreaReg()).stats;
              maxArea == res.maxArea && (valid <==> res.validCount > 0)
              && rectanglesTested == res.tested && rectanglesPruned == res.pruned
      ensures singlePassWalk ==> Stats() == Search(Polygon(), Test(), AreaReg())
      ensures singlePassWalk && NoOverflow(Polygon(), AreaReg()) ==> Summary(Polygon(), Test(), Stats(), numVertices, 0)
      ensures valid == validFound && maxArea == maxAreaReg
    {
      WaitStartCycle(true);
      LoadPoly();
      SearchPairs();
      CompleteCycle();
      if singlePassWalk && NoOverflow(Polygon(), AreaReg()) {
        SearchIsMaximum(Polygon(), Test(), AreaReg());
      }
    }
  }

  /** The square `(0,0), (40,0), (40,40), (0,40)` streamed after reset into
      a finder with four vertex slots: as written the loaded polygon is
      `(0,0), (40,0), (40,40), (0,0)`, its last vertex the RAM's reset
      value. */
  method SquareLoadedAsWritten() returns (polygon: seq<Point>)
    ensures polygon == [Point(0, 0), Point(40, 0), Point(40, 40), Point(0, 0)]
  {
    var finder := new MaxRectangleFinder(16, 4, false);
    finder.LoadPolygon([Point(0, 0), Point(40, 0), Point(40, 40), Point(0, 40)]);
    polygon := finder.mem[..finder.numVertices];
  }

  /** The same stream with the intended load keeps the square. */
  method SquareLoadedIntended() returns (polygon: seq<Point>)
    ensures polygon == [Point(0, 0), Point(40, 0), Point(40, 40), Point(0, 40)]
  {
    var finder := new MaxRectangleFinder(16, 4, true);
    finder.LoadPolygonIntended([Point(0, 0), Point(40, 0), Point(40, 40), Point(0, 40)]);
    polygon := finder.mem[..finder.numVertices];
  }
}
