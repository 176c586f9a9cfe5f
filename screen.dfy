// Pixel-level object recognition of the rule-based agent: the hand-written
// goomba sprite test and the screen scan that applies it at every position.

module Screen {
  import opened Python

  /** An RGB colour, compared as a whole. */
  type Pixel = (int, int, int)

  /** A screen as rows of pixels, indexed `observation[row][column]`. */
  type Frame = seq<seq<Pixel>>

  const Orange: Pixel := (228, 92, 16)
  const Tan: Pixel := (240, 208, 176)
  const Black: Pixel := (0, 0, 0)

  /** `observation[r][c]`, with Python's indexing. */
  function PixelAt(obs: Frame, r: int, c: int): (e: Eval<Pixel>)
    ensures 0 <= r < |obs| && 0 <= c < |obs[r]| ==> e == Value(obs[r][c])
  {
    match Subscript(obs, r)
    case IndexError => IndexError
    case Value(line) => Subscript(line, c)
  }

  /** One comparison `observation[row + dr][col + dc] == colour`. */
  datatype Probe = Probe(dr: int, dc: int, colour: Pixel)

  /** The fifteen comparisons of `goomba`, in the order its condition
      evaluates them. The anchor pixel (0, 0) is not among them: the scan
      checks it before calling `goomba`. */
  const GoombaProbes: seq<Probe> := [
    Probe(1, 0, Orange), Probe(2, 0, Orange), Probe(3, 0, Orange),
    Probe(0, 1, Tan), Probe(1, 1, Tan), Probe(2, 1, Tan), Probe(3, 1, Tan),
    Probe(0, 2, Black), Probe(1, 2, Black), Probe(2, 2, Black), Probe(3, 2, Tan),
    Probe(0, 3, Orange), Probe(1, 3, Black), Probe(2, 3, Tan), Probe(3, 3, Tan)
  ]

  /** A chain of `and`-ed comparisons, evaluated left to right: the first
      mismatch makes it false without reading further; a read outside the
      frame raises. */
  function ProbeAll(obs: Frame, row: int, col: int, probes: seq<Probe>): Eval<bool>
  {
    if probes == [] then Value(true)
    else match PixelAt(obs, row + probes[0].dr, col + probes[0].dc)
      case IndexError => IndexError
      case Value(px) =>
        if px != probes[0].colour then Value(false)
        else ProbeAll(obs, row, col, probes[1..])
  }

  /** `goomba(observation, row, col, theme)`. The source returns `True` or
      falls off the end (`None`); `Value(false)` stands for `None`. */
  function Goomba(obs: Frame, row: int, col: int, theme: string): (r: Eval<bool>)
    ensures theme != "g" ==> r == Value(false)
    ensures r == Value(true) <==> theme == "g" && ProbesHold(obs, row, col, GoombaProbes)
  {
    if theme != "g" then Value(false)
    else
      ProbeAllTrue(obs, row, col, GoombaProbes);
      ProbeAll(obs, row, col, GoombaProbes)
  }

  /** Every comparison of `probes` reads a pixel of the frame and finds it
      equal to the expected colour. */
  predicate ProbesHold(obs: Frame, row: int, col: int, probes: seq<Probe>)
  {
    forall i :: 0 <= i < |probes| ==>
      PixelAt(obs, row + probes[i].dr, col + probes[i].dc) == Value(probes[i].colour)
  }

  /** Wherever the window lies, a chain of comparisons is true exactly when
      every comparison reads a pixel and finds the expected colour. */
  lemma {:induction false} ProbeAllTrue(obs: Frame, row: int, col: int, probes: seq<Probe>)
    ensures ProbeAll(obs, row, col, probes) == Value(true) <==> ProbesHold(obs, row, col, probes)
  {
    if probes != [] {
      ProbeAllTrue(obs, row, col, probes[1..]);
      assert forall i :: 1 <= i < |probes| ==> probes[i] == probes[1..][i - 1];
    }
  }

  /** The goomba sprite's top-left 4x4 corner as it appears on screen,
      `GoombaTile[dr][dc]` being the colour at `(row + dr, col + dc)`. */
  const GoombaTile: seq<seq<Pixel>> := [
    [Orange, Tan, Black, Orange],
    [Orange, Tan, Black, Black],
    [Orange, Tan, Black, Tan],
    [Orange, Tan, Tan, Tan]
  ]

  /** Rows `row..row+3` exist and each of them has columns `col..col+3`. */
  predicate WindowFits(obs: Frame, row: int, col: int)
  {
    0 <= row && row + 3 < |obs| && 0 <= col &&
    forall r :: row <= r < row + 4 ==> col + 3 < |obs[r]|
  }

  /** Every cell of the 4x4 window at `(row, col)` holds the tile's colour,
      the anchor cell included or not. */
  predicate MatchesTile(obs: Frame, row: int, col: int, withAnchor: bool)
    requires WindowFits(obs, row, col)
  {
    forall dr, dc :: 0 <= dr < 4 && 0 <= dc < 4 && (withAnchor || dr != 0 || dc != 0) ==>
      obs[row + dr][col + dc] == GoombaTile[dr][dc]
  }

  predicate ProbeInWindow(p: Probe)
  {
    0 <= p.dr < 4 && 0 <= p.dc < 4
  }

  /** Inside a window that fits, a chain of comparisons never raises and is
      true exactly when every comparison holds. */
  lemma {:induction false} ProbeAllInWindow(obs: Frame, row: int, col: int, probes: seq<Probe>)
    requires WindowFits(obs, row, col)
    requires forall i :: 0 <= i < |probes| ==> ProbeInWindow(probes[i])
    ensures ProbeAll(obs, row, col, probes) == Value(ProbesHold(obs, row, col, probes))
  {
    if probes != [] {
      var p := probes[0];
      assert ProbeInWindow(p);
      assert |obs[row + p.dr]| > col + 3;
      ProbeAllInWindow(obs, row, col, probes[1..]);
      assert forall i :: 1 <= i < |probes| ==> probes[i] == probes[1..][i - 1];
    }
  }

  /** When its 4x4 window lies inside the frame, `goomba` never raises and
      holds exactly when the theme is "g" and the window shows the goomba
      tile everywhere except possibly at the anchor. */
  lemma GoombaWindow(obs: Frame, row: int, col: int, theme: string)
    requires WindowFits(obs, row, col)
    ensures Goomba(obs, row, col, theme) == Value(theme == "g" && MatchesTile(obs, row, col, false))
  {
    GoombaProbesColumnMajor();
    ProbeAllInWindow(obs, row, col, GoombaProbes);
    GoombaProbesMatchTile(obs, row, col);
  }

  /** The fifteen comparisons of `goomba` all hold exactly when the window
      shows the tile outside the anchor. */
  lemma GoombaProbesMatchTile(obs: Frame, row: int, col: int)
    requires WindowFits(obs, row, col)
    ensures ProbesHold(obs, row, col, GoombaProbes) <==> MatchesTile(obs, row, col, false)
  {
    GoombaProbesColumnMajor();
    if ProbesHold(obs, row, col, GoombaProbes) {
      forall dr, dc | 0 <= dr < 4 && 0 <= dc < 4 && (dr != 0 || dc != 0)
        ensures obs[row + dr][col + dc] == GoombaTile[dr][dc]
      {
        var i := 4 * dc + dr - 1;
        assert (i + 1) % 4 == dr && (i + 1) / 4 == dc;
        assert GoombaProbes[i] == Probe(dr, dc, GoombaTile[dr][dc]);
        assert |obs[row + dr]| > col + 3;
      }
    }
    if MatchesTile(obs, row, col, false) {
      forall i | 0 <= i < |GoombaProbes|
        ensures PixelAt(obs, row + GoombaProbes[i].dr, col + GoombaProbes[i].dc) == Value(GoombaProbes[i].colour)
      {
        var dr, dc := (i + 1) % 4, (i + 1) / 4;
        assert |obs[row + dr]| > col + 3;
        assert obs[row + dr][col + dc] == GoombaTile[dr][dc];
      }
    }
  }

  /** The probes visit the window column by column, top to bottom, skipping
      the anchor, and each compares its cell with the tile. */
  lemma GoombaProbesColumnMajor()
    ensures |GoombaProbes| == 15
    ensures forall i :: 0 <= i < 15 ==>
      GoombaProbes[i] == Probe((i + 1) % 4, (i + 1) / 4, GoombaTile[(i + 1) % 4][(i + 1) / 4])
  {
  }

  /** `goomba` reads only the 4x4 window at `(row, col)`: two frames that
      agree there, out-of-range reads included, give the same answer. */
  lemma GoombaReadsOnlyWindow(obs1: Frame, obs2: Frame, row: int, col: int, theme: string)
    requires forall r, c :: row <= r < row + 4 && col <= c < col + 4 ==> PixelAt(obs1, r, c) == PixelAt(obs2, r, c)
    ensures Goomba(obs1, row, col, theme) == Goomba(obs2, row, col, theme)
  {
    assert forall i :: 0 <= i < |GoombaProbes| ==> ProbeInWindow(GoombaProbes[i]);
    ProbeAllSameReads(obs1, obs2, row, col, GoombaProbes);
  }

  lemma {:induction false} ProbeAllSameReads(obs1: Frame, obs2: Frame, row: int, col: int, probes: seq<Probe>)
    requires forall i :: 0 <= i < |probes| ==>
      PixelAt(obs1, row + probes[i].dr, col + probes[i].dc) == PixelAt(obs2, row + probes[i].dr, col + probes[i].dc)
    ensures ProbeAll(obs1, row, col, probes) == ProbeAll(obs2, row, col, probes)
  {
    if probes != [] {
      assert forall i :: 1 <= i < |probes| ==> probes[i] == probes[1..][i - 1];
      ProbeAllSameReads(obs1, obs2, row, col, probes[1..]);
    }
  }

  /** Bound of the scan in both directions: `range(253)`. */
  const ScanSize: nat := 253

  /** Rows `0..n-1` exist and each has at least `n` columns. */
  predicate Covers(obs: Frame, n: nat)
  {
    |obs| >= n && forall r :: 0 <= r < n ==> |obs[r]| >= n
  }

  /** The scan's test at `(r, c)`: the anchor pixel is orange and `goomba`
      returns `True`. */
  predicate GoombaAt(obs: Frame, theme: string, r: int, c: int)
    requires 0 <= r < |obs| && 0 <= c < |obs[r]|
  {
    obs[r][c] == Orange && Goomba(obs, r, c, theme) == Value(true)
  }

  /** The nested loops of `look`, returning the `objects` dictionary they
      build: the key `(row, p)` maps to "goomba" exactly for the positions of
      the 253x253 scan area that pass the test. */
  method ScanScreen(observation: Frame, theme: string) returns (objects: map<(int, int), string>)
    requires Covers(observation, ScanSize + 3)
    ensures forall k :: k in objects ==>
      0 <= k.0 < ScanSize && 0 <= k.1 < ScanSize &&
      GoombaAt(observation, theme, k.0, k.1) && objects[k] == "goomba"
    ensures forall r, c ::
      0 <= r < ScanSize && 0 <= c < ScanSize && GoombaAt(observation, theme, r, c) ==> (r, c) in objects
  {
    objects := map[];
    for row := 0 to ScanSize
      invariant forall k :: k in objects ==>
        0 <= k.0 < row && 0 <= k.1 < ScanSize &&
        GoombaAt(observation, theme, k.0, k.1) && objects[k] == "goomba"
      invariant forall r, c ::
        0 <= r < row && 0 <= c < ScanSize && GoombaAt(observation, theme, r, c) ==> (r, c) in objects
    {
      for p := 0 to ScanSize
        invariant forall k :: k in objects ==>
          ((0 <= k.0 < row && 0 <= k.1 < ScanSize) || (k.0 == row && 0 <= k.1 < p)) &&
          GoombaAt(observation, theme, k.0, k.1) && objects[k] == "goomba"
        invariant forall r, c ::
          ((0 <= r < row && 0 <= c < ScanSize) || (r == row && 0 <= c < p)) && GoombaAt(observation, theme, r, c)
          ==> (r, c) in objects
      {
        if observation[row][p] == Orange {
          var found := Goomba(observation, row, p, theme);
          assert found != IndexError by {
            GoombaWindow(observation, row, p, theme);
          }
          if found == Value(true) {
            objects := objects[(row, p) := "goomba"];
          }
        }
      }
    }
  }

  /** `look(observation, theme="g")`: runs the scan and discards the
      dictionary it built; it returns nothing. */
  method Look(observation: Frame, theme: string := "g")
    requires Covers(observation, ScanSize + 3)
  {
    var objects := ScanScreen(observation, theme);
  }

  /** A position of the scan area passes the scan's test exactly when the
      theme is "g" and the 4x4 window there shows the goomba tile. */
  lemma GoombaAtTile(obs: Frame, theme: string, r: int, c: int)
    requires Covers(obs, ScanSize + 3)
    requires 0 <= r < ScanSize && 0 <= c < ScanSize
    ensures WindowFits(obs, r, c)
    ensures GoombaAt(obs, theme, r, c) <==> theme == "g" && MatchesTile(obs, r, c, true)
  {
    assert |obs[r]| >= ScanSize + 3;
    GoombaWindow(obs, r, c, theme);
    if theme == "g" && MatchesTile(obs, r, c, true) {
      assert MatchesTile(obs, r, c, false);
      assert obs[r][c] == GoombaTile[0][0] == Orange;
    }
    if GoombaAt(obs, theme, r, c) {
      assert theme == "g" && MatchesTile(obs, r, c, false);
      forall dr, dc | 0 <= dr < 4 && 0 <= dc < 4
        ensures obs[r + dr][c + dc] == GoombaTile[dr][dc]
      {
        if dr == 0 && dc == 0 {
          assert obs[r][c] == Orange;
        } else {
          assert obs[r + dr][c + dc] == GoombaTile[dr][dc];
        }
      }
      assert MatchesTile(obs, r, c, true);
    }
  }
}
