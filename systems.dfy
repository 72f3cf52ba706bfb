/**
 * The game systems (src/systems.rs): board setup, the per-cell effect of a
 * click, the flood fill that auto-reveals zero-count regions, and the glyph a
 * cell shows. The entity set of the source is an array of cells indexed by
 * `grid_index`; the cell at index `i` sits at column `i % width`, row `i / width`.
 */
module Systems {
  import opened Numeric
  import opened Board
  import opened Cells

  // ---------------------------------------------------------------------------
  // Per-cell transitions (click_system)
  // ---------------------------------------------------------------------------

  /** The edges of the cell state machine. */
  predicate LegalTransition(before: Cell, after: Cell) {
    after.state == before.state
    || (before.state == Hidden && after.state == Exploded && before.isBomb)
    || (before.state == Hidden && after.state == Revealed && !before.isBomb)
    || (before.state == Hidden && after.state == Flagged)
    || (before.state == Flagged && after.state == Hidden)
  }

  /** A left click: a hidden cell explodes if it is a bomb and is revealed otherwise. */
  function Reveal(c: Cell): (r: Cell)
    ensures Facts(r) == Facts(c) && LegalTransition(c, r)
    ensures c.state != Hidden ==> r == c
    ensures c.state == Hidden ==> (r.state == Exploded <==> c.isBomb) && (r.state == Revealed <==> !c.isBomb)
  {
    if c.state == Hidden then
      c.(state := if c.isBomb then Exploded else Revealed)
    else
      c
  }

  /** A right click: hidden and flagged swap; revealed and exploded cells stay put. */
  function ToggleFlag(c: Cell): (r: Cell)
    ensures Facts(r) == Facts(c) && LegalTransition(c, r)
    ensures c.state == Hidden <==> r.state == Flagged
    ensures c.state == Revealed || c.state == Exploded ==> r == c
  {
    match c.state
    case Hidden => c.(state := Flagged)
    case Flagged => c.(state := Hidden)
    case _ => c
  }

  /** Flagging twice gives back the cell. */
  lemma ToggleFlagTwice(c: Cell)
    ensures ToggleFlag(ToggleFlag(c)) == c
  {
  }

  /** Revealing twice is revealing once. */
  lemma RevealIdempotent(c: Cell)
    ensures Reveal(Reveal(c)) == Reveal(c)
  {
  }

  /**
   * The branch of `click_system` for the cell under the cursor: a left press on
   * a hidden cell reveals it; otherwise a right press toggles its flag.
   */
  function ClickCell(c: Cell, left: bool, right: bool): (r: Cell)
    ensures Facts(r) == Facts(c) && LegalTransition(c, r)
    ensures !right && (!left || c.state != Hidden) ==> r == c
    ensures c.state == Revealed || c.state == Exploded ==> r == c
    ensures left && c.state == Hidden ==> r.state == (if c.isBomb then Exploded else Revealed)
    ensures right && !(left && c.state == Hidden) ==> (c.state == Hidden <==> r.state == Flagged)
  {
    if left && c.state == Hidden then Reveal(c)
    else if right then ToggleFlag(c)
    else c
  }

  // ---------------------------------------------------------------------------
  // Glyph (update_node_appearance)
  // ---------------------------------------------------------------------------

  /**
   * The text a cell shows: its count in decimal when revealed with bomb
   * neighbours, "F" when flagged, "B" when exploded, and nothing otherwise.
   */
  function Glyph(c: Cell): (text: string)
    ensures text == [] <==> c.state == Hidden || (c.state == Revealed && c.neighborBombs == 0)
    ensures text == "F" <==> c.state == Flagged
    ensures text == "B" <==> c.state == Exploded
    ensures c.state == Revealed && c.neighborBombs > 0 ==>
              AllDigits(text) && DecimalValue(text) == c.neighborBombs as nat && (|text| > 1 ==> text[0] != '0')
  {
    match c.state
    case Revealed => if c.neighborBombs > 0 then DecimalString(c.neighborBombs as nat) else ""
    case Flagged => "F"
    case Exploded => "B"
    case _ => ""
  }

  /** The default cell shows no text on a white background. */
  lemma DefaultCellAppearance()
    ensures Glyph(DefaultCell()) == [] && GetColor(DefaultCell()) == White
  {
  }

  // ---------------------------------------------------------------------------
  // Collections of cells
  // ---------------------------------------------------------------------------

  /** What `setup` fixes about a cell and no system changes afterwards: all but its state. */
  datatype CellFacts = CellFacts(isBomb: bool, position: Position, neighborBombs: u8)

  /** The fixed facts of a cell. */
  function Facts(c: Cell): CellFacts {
    CellFacts(c.isBomb, c.position, c.neighborBombs)
  }

  /** The fixed facts of every cell of a collection. */
  function FactsOf(s: seq<Cell>): (r: seq<CellFacts>)
    ensures |r| == |s|
    ensures forall i :: 0 <= i < |s| ==> r[i] == Facts(s[i])
  {
    seq(|s|, i requires 0 <= i < |s| => Facts(s[i]))
  }

  /** Replacing one cell by one with the same facts keeps the facts of the collection. */
  lemma SameFactsUpdate(s: seq<Cell>, i: nat, c: Cell)
    requires i < |s| && Facts(c) == Facts(s[i])
    ensures FactsOf(s[i := c]) == FactsOf(s)
  {
    assert forall j :: 0 <= j < |s| ==> FactsOf(s[i := c])[j] == FactsOf(s)[j];
  }

  /** The bomb layout of a collection of cells. */
  function BombsOf(s: seq<Cell>): (r: seq<bool>)
    ensures |r| == |s|
    ensures forall i :: 0 <= i < |s| ==> r[i] == s[i].isBomb
  {
    seq(|s|, i requires 0 <= i < |s| => s[i].isBomb)
  }

  /** Cells with the same facts have the same bomb layout. */
  lemma SameFactsSameBombs(s: seq<Cell>, t: seq<Cell>)
    requires FactsOf(s) == FactsOf(t)
    ensures BombsOf(s) == BombsOf(t)
  {
    assert |s| == |t|;
    forall i | 0 <= i < |s|
      ensures s[i].isBomb == t[i].isBomb
    {
      assert Facts(s[i]) == FactsOf(s)[i] == FactsOf(t)[i] == Facts(t[i]);
    }
  }

  /** The number of hidden cells in a collection. */
  function HiddenCount(s: seq<Cell>): (n: nat)
    ensures n <= |s|
  {
    if s == [] then 0 else HiddenCount(s[..|s| - 1]) + (if s[|s| - 1].state == Hidden then 1 else 0)
  }

  /** Taking a hidden cell out of the hidden state lowers the hidden count by one. */
  lemma {:induction false} HiddenCountUpdate(s: seq<Cell>, i: nat, c: Cell)
    requires i < |s| && s[i].state == Hidden && c.state != Hidden
    ensures HiddenCount(s[i := c]) == HiddenCount(s) - 1
  {
    var n := |s| - 1;
    var t := s[i := c];
    assert t[..n] == if i == n then s[..n] else s[..n][i := c];
    if i < n {
      HiddenCountUpdate(s[..n], i, c);
    }
  }

  /**
   * The board invariant: one cell per grid position, the cell at index `i`
   * sits at (i % width, i / width), and every count is that of the layout.
   */
  ghost predicate WellFormed(width: nat, height: nat, s: seq<Cell>) {
    && width > 0 && height > 0 && |s| == width * height
    && (forall i :: 0 <= i < |s| ==> s[i].position == (Column(width, i), Row(width, i)))
    && (forall i :: 0 <= i < |s| ==> s[i].neighborBombs as int == ExpectedCount(width, height, BombsOf(s), i))
  }

  /** The board invariant depends on the facts of the cells only. */
  lemma WellFormedFacts(width: nat, height: nat, s: seq<Cell>, t: seq<Cell>)
    requires WellFormed(width, height, s) && FactsOf(s) == FactsOf(t)
    ensures WellFormed(width, height, t)
  {
    SameFactsSameBombs(s, t);
    forall i | 0 <= i < |t|
      ensures t[i].position == s[i].position && t[i].neighborBombs == s[i].neighborBombs
    {
      assert Facts(s[i]) == FactsOf(s)[i] == FactsOf(t)[i] == Facts(t[i]);
    }
  }

  // ---------------------------------------------------------------------------
  // Flood fill (auto_reveal)
  // ---------------------------------------------------------------------------

  /** The seeding condition of `auto_reveal`: revealed, no bomb neighbours, not a bomb. */
  predicate SafeZero(c: Cell) {
    c.state == Revealed && c.neighborBombs == 0 && !c.isBomb
  }

  /** Cells `i` and `j` are Moore neighbours on a grid `width` columns wide. */
  predicate Adjacent(width: nat, i: nat, j: nat)
    requires width > 0
  {
    MooreAdjacent(Column(width, i), Row(width, i), Column(width, j), Row(width, j))
  }

  /** No Moore neighbour of cell `i` is hidden. */
  ghost predicate NoHiddenNeighbor(width: nat, s: seq<Cell>, i: nat)
    requires width > 0
  {
    forall j :: 0 <= j < |s| && Adjacent(width, i, j) ==> s[j].state != Hidden
  }

  /** The flood fill's goal: no safe zero cell has a hidden neighbour. */
  ghost predicate Closed(width: nat, s: seq<Cell>)
    requires width > 0
  {
    forall i :: 0 <= i < |s| && SafeZero(s[i]) ==> NoHiddenNeighbor(width, s, i)
  }

  /** The queue entry `pos` addresses a safe zero cell. */
  ghost predicate SafeZeroAt(width: nat, height: nat, s: seq<Cell>, pos: Position) {
    |s| == width * height && InBounds(width, height, pos.0, pos.1)
    && SafeZero(s[CellIndex(width, height, pos.0, pos.1)])
  }

  /** `t` follows `s` by turning hidden, bomb-free cells into revealed ones only. */
  ghost predicate RevealsOnly(s: seq<Cell>, t: seq<Cell>) {
    && FactsOf(s) == FactsOf(t)
    && forall i :: 0 <= i < |s| ==>
         t[i].state == s[i].state || (s[i].state == Hidden && t[i].state == Revealed && !s[i].isBomb)
  }

  /** Distinct positions of cells that were hidden in `s0`. */
  ghost predicate FreshEntries(width: nat, height: nat, s0: seq<Cell>, entries: seq<Position>) {
    && (forall k :: 0 <= k < |entries| ==>
          |s0| == width * height && InBounds(width, height, entries[k].0, entries[k].1) &&
          s0[CellIndex(width, height, entries[k].0, entries[k].1)].state == Hidden)
    && (forall k1, k2 :: 0 <= k1 < k2 < |entries| ==> entries[k1] != entries[k2])
  }

  /**
   * `pos` is a grid position from which the flood fill started from `s0` spreads:
   * a seed (a safe zero cell of `s0`) or a position on the record `enqueued`.
   */
  ghost predicate Reached(width: nat, height: nat, s0: seq<Cell>, enqueued: seq<Position>, pos: Position) {
    && |s0| == width * height && InBounds(width, height, pos.0, pos.1)
    && (SafeZero(s0[CellIndex(width, height, pos.0, pos.1)]) || pos in enqueued)
  }

  /** Each recorded position neighbours a seed or a position recorded before it. */
  ghost predicate Chained(width: nat, height: nat, s0: seq<Cell>, enqueued: seq<Position>) {
    forall k :: 0 <= k < |enqueued| ==>
      exists q :: Reached(width, height, s0, enqueued[..k], q) && MooreAdjacent(q.0, q.1, enqueued[k].0, enqueued[k].1)
  }

  /** Cell `i` neighbours a seed or a recorded position. */
  ghost predicate ReachedNeighbor(width: nat, height: nat, s0: seq<Cell>, enqueued: seq<Position>, i: nat)
    requires width > 0
  {
    exists q :: Reached(width, height, s0, enqueued, q) && MooreAdjacent(q.0, q.1, Column(width, i), Row(width, i))
  }

  /** A neighbour of a bomb-free cell with count zero is not a bomb. */
  lemma ZeroCountNeighborSafe(width: nat, height: nat, s: seq<Cell>, p: nat, j: nat)
    requires WellFormed(width, height, s)
    requires p < |s| && j < |s| && !s[p].isBomb && s[p].neighborBombs == 0
    requires Adjacent(width, p, j)
    ensures !s[j].isBomb
  {
    var around := NeighborBombs(width, height, BombsOf(s), Column(width, p), Row(width, p));
    assert |around| == 0;
    assert j !in around;
  }

  /** A neighbour at offset number `t` of cell `p` is the cell at (px + dx, py + dy). */
  lemma OffsetLocates(width: nat, height: nat, p: nat, j: nat, dx: int, dy: int)
    requires width > 0 && p < width * height && j < width * height
    requires -1 <= dx <= 1 && -1 <= dy <= 1
    requires Adjacent(width, p, j)
    requires OffsetIndex(Column(width, p), Row(width, p), Column(width, j), Row(width, j)) == (dx + 1) * 3 + dy + 1
    ensures dx != 0 || dy != 0
    ensures InBounds(width, height, Column(width, p) + dx, Row(width, p) + dy)
    ensures j == CellIndex(width, height, Column(width, p) + dx, Row(width, p) + dy)
  {
    var px: int, py: int := Column(width, p), Row(width, p);
    var jx: int, jy: int := Column(width, j), Row(width, j);
    OffsetEncode(jx - px, jy - py);
    OffsetEncode(dx, dy);
    IndexRoundTrip(width, height, j);
  }

  /** Every Moore neighbour has an offset number below 9. */
  lemma OffsetBelowNine(width: nat, p: nat, j: nat)
    requires width > 0 && Adjacent(width, p, j)
    ensures 0 <= OffsetIndex(Column(width, p), Row(width, p), Column(width, j), Row(width, j)) < 9
  {
  }

  /**
   * The state of one pop of the `auto_reveal` queue, from `s0` to `s`, once the
   * offsets before number `t` around cell `p` have been handled: only hidden
   * neighbours of `p` have changed, and only to revealed; the neighbours handled
   * so far are no longer hidden; every newly revealed safe zero cell has been
   * queued in `pushed`; and each queued entry cost one hidden cell.
   */
  ghost predicate ExpandedUpTo(width: nat, height: nat, s0: seq<Cell>, s: seq<Cell>, p: nat, t: int,
                               pushed: seq<Position>)
    requires width > 0
  {
    && |s| == |s0|
    && RevealsOnly(s0, s)
    && (forall i :: 0 <= i < |s| && s[i] != s0[i] ==> Adjacent(width, p, i))
    && (forall j :: 0 <= j < |s| && Adjacent(width, p, j) &&
                   OffsetIndex(Column(width, p), Row(width, p), Column(width, j), Row(width, j)) < t
                   ==> s[j].state != Hidden)
    && (forall i :: 0 <= i < |s| && s0[i].state == Hidden && SafeZero(s[i]) ==> s[i].position in pushed)
    && (forall k :: 0 <= k < |pushed| ==> SafeZeroAt(width, height, s, pushed[k]))
    && |pushed| + HiddenCount(s) <= HiddenCount(s0)
  }

  /** An offset that lands on no hidden cell changes nothing and completes its step. */
  lemma ExpandSkip(width: nat, height: nat, s0: seq<Cell>, s: seq<Cell>, p: nat, dx: int, dy: int,
                   pushed: seq<Position>)
    requires width > 0 && |s0| == width * height && p < |s0|
    requires -1 <= dx <= 1 && -1 <= dy <= 1
    requires ExpandedUpTo(width, height, s0, s, p, (dx + 1) * 3 + dy + 1, pushed)
    requires (dx == 0 && dy == 0) || !InBounds(width, height, Column(width, p) + dx, Row(width, p) + dy)
             || s[CellIndex(width, height, Column(width, p) + dx, Row(width, p) + dy)].state != Hidden
    ensures ExpandedUpTo(width, height, s0, s, p, (dx + 1) * 3 + dy + 2, pushed)
  {
    forall j | 0 <= j < |s| && Adjacent(width, p, j)
        && OffsetIndex(Column(width, p), Row(width, p), Column(width, j), Row(width, j)) == (dx + 1) * 3 + dy + 1
      ensures s[j].state != Hidden
    {
      OffsetLocates(width, height, p, j, dx, dy);
    }
  }

  /** Once the neighbour at offset (dx, dy) is not hidden, offset number t is done too. */
  lemma OffsetCovered(width: nat, height: nat, s: seq<Cell>, s': seq<Cell>, p: nat, dx: int, dy: int)
    requires width > 0 && |s| == |s'| == width * height && p < |s|
    requires -1 <= dx <= 1 && -1 <= dy <= 1 && (dx != 0 || dy != 0)
    requires InBounds(width, height, Column(width, p) + dx, Row(width, p) + dy)
    requires var idx := CellIndex(width, height, Column(width, p) + dx, Row(width, p) + dy);
             s'[idx].state != Hidden && forall i :: 0 <= i < |s| && i != idx ==> s'[i] == s[i]
    requires forall j :: 0 <= j < |s| && Adjacent(width, p, j) &&
                        OffsetIndex(Column(width, p), Row(width, p), Column(width, j), Row(width, j)) < (dx + 1) * 3 + dy + 1
                        ==> s[j].state != Hidden
    ensures forall j :: 0 <= j < |s'| && Adjacent(width, p, j) &&
                       OffsetIndex(Column(width, p), Row(width, p), Column(width, j), Row(width, j)) < (dx + 1) * 3 + dy + 2
                       ==> s'[j].state != Hidden
  {
    forall j | 0 <= j < |s'| && Adjacent(width, p, j) &&
               OffsetIndex(Column(width, p), Row(width, p), Column(width, j), Row(width, j)) == (dx + 1) * 3 + dy + 1
      ensures s'[j].state != Hidden
    {
      OffsetLocates(width, height, p, j, dx, dy);
    }
  }

  /** Queueing a position whose cell was hidden keeps the queued entries fresh and distinct. */
  lemma FreshPush(width: nat, height: nat, s0: seq<Cell>, s: seq<Cell>, pushed: seq<Position>, nx: int, ny: int)
    requires |s0| == |s| == width * height && InBounds(width, height, nx, ny)
    requires s[CellIndex(width, height, nx, ny)].state == Hidden && s0[CellIndex(width, height, nx, ny)].state == Hidden
    requires forall k :: 0 <= k < |pushed| ==> SafeZeroAt(width, height, s, pushed[k])
    requires FreshEntries(width, height, s0, pushed)
    ensures FreshEntries(width, height, s0, pushed + [(nx, ny)])
  {
    forall k | 0 <= k < |pushed|
      ensures pushed[k] != (nx, ny)
    {
      assert SafeZeroAt(width, height, s, pushed[k]);
    }
  }

  /** Revealing one hidden bomb-free cell reveals only, keeps its facts and lowers the hidden count. */
  lemma RevealOne(s0: seq<Cell>, s: seq<Cell>, idx: nat)
    requires |s0| == |s| && idx < |s| && RevealsOnly(s0, s)
    requires s[idx].state == Hidden && !s0[idx].isBomb
    ensures var s' := s[idx := s[idx].(state := Revealed)];
            && RevealsOnly(s0, s')
            && Facts(s'[idx]) == Facts(s0[idx])
            && HiddenCount(s') == HiddenCount(s) - 1
  {
    var s' := s[idx := s[idx].(state := Revealed)];
    SameFactsUpdate(s, idx, s'[idx]);
    assert Facts(s[idx]) == FactsOf(s)[idx] == FactsOf(s0)[idx] == Facts(s0[idx]);
    HiddenCountUpdate(s, idx, s'[idx]);
  }

  /**
   * Revealing the hidden neighbour at offset (dx, dy), and queueing it when its
   * count is zero, completes the step.
   */
  lemma ExpandReveal(width: nat, height: nat, s0: seq<Cell>, s: seq<Cell>, p: nat, dx: int, dy: int,
                     pushed: seq<Position>)
    requires width > 0 && |s0| == width * height && p < |s0|
    requires -1 <= dx <= 1 && -1 <= dy <= 1 && (dx != 0 || dy != 0)
    requires ExpandedUpTo(width, height, s0, s, p, (dx + 1) * 3 + dy + 1, pushed)
    requires InBounds(width, height, Column(width, p) + dx, Row(width, p) + dy)
    requires var idx := CellIndex(width, height, Column(width, p) + dx, Row(width, p) + dy);
             s[idx].state == Hidden && !s0[idx].isBomb && s0[idx].position == (Column(width, p) + dx, Row(width, p) + dy)
    ensures var nx, ny := Column(width, p) + dx, Row(width, p) + dy;
            var idx := CellIndex(width, height, nx, ny);
            var s' := s[idx := s[idx].(state := Revealed)];
            ExpandedUpTo(width, height, s0, s', p, (dx + 1) * 3 + dy + 2,
                         if s[idx].neighborBombs == 0 then pushed + [(nx, ny)] else pushed)
  {
    var nx, ny := Column(width, p) + dx, Row(width, p) + dy;
    var idx := CellIndex(width, height, nx, ny);
    var s' := s[idx := s[idx].(state := Revealed)];
    var pushed' := if s[idx].neighborBombs == 0 then pushed + [(nx, ny)] else pushed;
    var t := (dx + 1) * 3 + dy + 1;
    OffsetEncode(dx, dy);
    assert Adjacent(width, p, idx);
    RevealOne(s0, s, idx);
    assert forall i :: 0 <= i < |s'| && s'[i] != s0[i] ==> Adjacent(width, p, i);
    assert |pushed'| + HiddenCount(s') <= HiddenCount(s0);
    assert forall i :: 0 <= i < |s'| && s0[i].state == Hidden && SafeZero(s'[i]) ==> s'[i].position in pushed';
    OffsetCovered(width, height, s, s', p, dx, dy);
    forall k | 0 <= k < |pushed'|
      ensures SafeZeroAt(width, height, s', pushed'[k])
    {
      if k < |pushed| {
        assert SafeZeroAt(width, height, s, pushed[k]);
      }
    }
    assert ExpandedUpTo(width, height, s0, s', p, t + 1, pushed');
  }

  /** Revealing in two rounds is revealing. */
  lemma RevealsOnlyTransitive(s0: seq<Cell>, s1: seq<Cell>, s2: seq<Cell>)
    requires RevealsOnly(s0, s1) && RevealsOnly(s1, s2)
    ensures RevealsOnly(s0, s2)
  {
    forall i | 0 <= i < |s0|
      ensures s1[i].isBomb == s0[i].isBomb
    {
      assert Facts(s0[i]) == FactsOf(s0)[i] == FactsOf(s1)[i] == Facts(s1[i]);
    }
  }

  /**
   * The queue invariant of `auto_reveal` survives one pop: a safe zero cell
   * that is no longer queued has no hidden neighbour.
   */
  lemma QueueStep(width: nat, height: nat, s: seq<Cell>, s': seq<Cell>, pos: Position, rest: seq<Position>,
                  pushed: seq<Position>)
    requires WellFormed(width, height, s) && SafeZeroAt(width, height, s, pos)
    requires forall i :: 0 <= i < |s| && SafeZero(s[i]) && s[i].position !in [pos] + rest ==>
               NoHiddenNeighbor(width, s, i)
    requires RevealsOnly(s, s')
    requires NoHiddenNeighbor(width, s', CellIndex(width, height, pos.0, pos.1))
    requires forall i :: 0 <= i < |s| && s[i].state == Hidden && SafeZero(s'[i]) ==> s'[i].position in pushed
    ensures forall i :: 0 <= i < |s'| && SafeZero(s'[i]) && s'[i].position !in rest + pushed ==>
              NoHiddenNeighbor(width, s', i)
  {
    var p := CellIndex(width, height, pos.0, pos.1);
    forall i | 0 <= i < |s'| && SafeZero(s'[i]) && s'[i].position !in rest + pushed
      ensures NoHiddenNeighbor(width, s', i)
    {
      assert Facts(s[i]) == FactsOf(s)[i] == FactsOf(s')[i] == Facts(s'[i]);
      if i != p {
        IndexRoundTrip(width, height, i);
        assert s[i].position != pos;
        assert NoHiddenNeighbor(width, s, i);
      }
    }
  }

  /**
   * The record of everything ever queued by `auto_reveal` survives one pop:
   * the new entries were hidden before the pop, the old ones were not, so all
   * stay distinct; and every cell turned into a safe zero cell is on record.
   */
  lemma RecordStep(width: nat, height: nat, s0: seq<Cell>, s: seq<Cell>, s': seq<Cell>,
                   enqueued: seq<Position>, pushed: seq<Position>)
    requires |s0| == |s| == width * height
    requires RevealsOnly(s0, s) && RevealsOnly(s, s')
    requires FreshEntries(width, height, s0, enqueued)
    requires forall k :: 0 <= k < |enqueued| ==> SafeZeroAt(width, height, s, enqueued[k])
    requires FreshEntries(width, height, s, pushed)
    requires forall k :: 0 <= k < |pushed| ==> SafeZeroAt(width, height, s', pushed[k])
    requires forall i :: 0 <= i < |s| && s0[i].state == Hidden && SafeZero(s[i]) ==> s[i].position in enqueued
    requires forall i :: 0 <= i < |s| && s[i].state == Hidden && SafeZero(s'[i]) ==> s'[i].position in pushed
    ensures FreshEntries(width, height, s0, enqueued + pushed)
    ensures forall k :: 0 <= k < |enqueued + pushed| ==> SafeZeroAt(width, height, s', (enqueued + pushed)[k])
    ensures forall i :: 0 <= i < |s'| && s0[i].state == Hidden && SafeZero(s'[i]) ==> s'[i].position in enqueued + pushed
  {
    var all := enqueued + pushed;
    forall k | 0 <= k < |all|
      ensures InBounds(width, height, all[k].0, all[k].1)
      ensures s0[CellIndex(width, height, all[k].0, all[k].1)].state == Hidden
      ensures SafeZeroAt(width, height, s', all[k])
    {
      if k < |enqueued| {
        assert SafeZeroAt(width, height, s, enqueued[k]);
        var q := CellIndex(width, height, all[k].0, all[k].1);
        assert Facts(s[q]) == FactsOf(s)[q] == FactsOf(s')[q] == Facts(s'[q]);
      } else {
        assert all[k] == pushed[k - |enqueued|];
        assert SafeZeroAt(width, height, s', pushed[k - |enqueued|]);
      }
    }
    forall k1, k2 | 0 <= k1 < k2 < |all|
      ensures all[k1] != all[k2]
    {
      if k1 < |enqueued| && k2 >= |enqueued| {
        assert SafeZeroAt(width, height, s, enqueued[k1]);
        assert all[k2] == pushed[k2 - |enqueued|];
      } else if k1 >= |enqueued| {
        assert all[k1] == pushed[k1 - |enqueued|] && all[k2] == pushed[k2 - |enqueued|];
      }
    }
    forall i | 0 <= i < |s'| && s0[i].state == Hidden && SafeZero(s'[i])
      ensures s'[i].position in all
    {
      assert Facts(s[i]) == FactsOf(s)[i] == FactsOf(s')[i] == Facts(s'[i]);
    }
  }

  /**
   * One pop of `pos` keeps the flood fill connected: the positions it records
   * neighbour `pos`, which is a seed or recorded, and so do the cells it uncovers.
   */
  lemma ReachStep(width: nat, height: nat, s0: seq<Cell>, s: seq<Cell>, s': seq<Cell>, pos: Position,
                  rest: seq<Position>, enqueued: seq<Position>, pushed: seq<Position>)
    requires width > 0 && |s0| == |s| == |s'| == width * height
    requires Reached(width, height, s0, enqueued, pos)
    requires forall k :: 0 <= k < |rest| ==> Reached(width, height, s0, enqueued, rest[k])
    requires forall i :: 0 <= i < |s| && s'[i] != s[i] ==> Adjacent(width, CellIndex(width, height, pos.0, pos.1), i)
    requires FreshEntries(width, height, s, pushed)
    requires forall k :: 0 <= k < |pushed| ==> SafeZeroAt(width, height, s', pushed[k])
    requires Chained(width, height, s0, enqueued)
    requires forall i :: 0 <= i < |s| && s0[i].state == Hidden && s[i].state != Hidden ==>
               ReachedNeighbor(width, height, s0, enqueued, i)
    ensures Chained(width, height, s0, enqueued + pushed)
    ensures forall k :: 0 <= k < |rest + pushed| ==> Reached(width, height, s0, enqueued + pushed, (rest + pushed)[k])
    ensures forall i :: 0 <= i < |s'| && s0[i].state == Hidden && s'[i].state != Hidden ==>
              ReachedNeighbor(width, height, s0, enqueued + pushed, i)
  {
    var all := enqueued + pushed;
    var p := CellIndex(width, height, pos.0, pos.1);
    forall k | 0 <= k < |all|
      ensures exists q :: Reached(width, height, s0, all[..k], q) && MooreAdjacent(q.0, q.1, all[k].0, all[k].1)
    {
      if k < |enqueued| {
        assert all[..k] == enqueued[..k] && all[k] == enqueued[k];
      } else {
        var m := k - |enqueued|;
        assert all[k] == pushed[m];
        assert all[..k] == enqueued + pushed[..m];
        assert Reached(width, height, s0, all[..k], pos);
        assert SafeZeroAt(width, height, s', pushed[m]);
        var idx := CellIndex(width, height, pushed[m].0, pushed[m].1);
        assert s[idx].state == Hidden;
        assert Adjacent(width, p, idx);
      }
    }
    forall k | 0 <= k < |rest + pushed|
      ensures Reached(width, height, s0, all, (rest + pushed)[k])
    {
      if k < |rest| {
        assert Reached(width, height, s0, enqueued, rest[k]);
      } else {
        assert (rest + pushed)[k] == pushed[k - |rest|] == all[|enqueued| + k - |rest|];
        assert SafeZeroAt(width, height, s', pushed[k - |rest|]);
      }
    }
    forall i | 0 <= i < |s'| && s0[i].state == Hidden && s'[i].state != Hidden
      ensures ReachedNeighbor(width, height, s0, all, i)
    {
      if s'[i] != s[i] {
        assert Adjacent(width, p, i);
        assert Reached(width, height, s0, all, pos);
      } else {
        var q :| Reached(width, height, s0, enqueued, q) && MooreAdjacent(q.0, q.1, Column(width, i), Row(width, i));
        assert Reached(width, height, s0, all, q);
      }
    }
  }

  /**
   * What `auto_reveal` keeps true between pops, for the cells `s` reached from
   * the cells `s0` it started on, the live `queue` and the record `enqueued`
   * of every position queued after the seeds.
   */
  ghost predicate PopInvariant(width: nat, height: nat, s0: seq<Cell>, s: seq<Cell>, queue: seq<Position>,
                               enqueued: seq<Position>)
    requires width > 0
  {
    && |s0| == |s| == width * height
    && RevealsOnly(s0, s)
    && (forall k :: 0 <= k < |queue| ==> SafeZeroAt(width, height, s, queue[k]))
    && (forall i :: 0 <= i < |s| && SafeZero(s[i]) && s[i].position !in queue ==> NoHiddenNeighbor(width, s, i))
    && (Closed(width, s0) ==> s == s0)
    && (forall k :: 0 <= k < |queue| ==> Reached(width, height, s0, enqueued, queue[k]))
    && Chained(width, height, s0, enqueued)
    && (forall i :: 0 <= i < |s| && s0[i].state == Hidden && s[i].state != Hidden ==>
          ReachedNeighbor(width, height, s0, enqueued, i))
    && FreshEntries(width, height, s0, enqueued)
    && (forall k :: 0 <= k < |enqueued| ==> SafeZeroAt(width, height, s, enqueued[k]))
    && (forall i :: 0 <= i < |s| && s0[i].state == Hidden && SafeZero(s[i]) ==> s[i].position in enqueued)
    && |enqueued| + HiddenCount(s) <= HiddenCount(s0)
  }

  /** One pop of the queue keeps the queue part of the invariant. */
  lemma PopQueue(width: nat, height: nat, s0: seq<Cell>, s: seq<Cell>, s': seq<Cell>, pos: Position,
                 rest: seq<Position>, pushed: seq<Position>)
    requires WellFormed(width, height, s) && |s0| == |s| && InBounds(width, height, pos.0, pos.1)
    requires forall k :: 0 <= k < |[pos] + rest| ==> SafeZeroAt(width, height, s, ([pos] + rest)[k])
    requires forall i :: 0 <= i < |s| && SafeZero(s[i]) && s[i].position !in [pos] + rest ==>
               NoHiddenNeighbor(width, s, i)
    requires Closed(width, s0) ==> s == s0
    requires var p := CellIndex(width, height, pos.0, pos.1);
             && RevealsOnly(s, s')
             && (forall i :: 0 <= i < |s| && s'[i] != s[i] ==> Adjacent(width, p, i))
             && NoHiddenNeighbor(width, s', p)
    requires forall i :: 0 <= i < |s| && s[i].state == Hidden && SafeZero(s'[i]) ==> s'[i].position in pushed
    requires forall k :: 0 <= k < |pushed| ==> SafeZeroAt(width, height, s', pushed[k])
    ensures forall k :: 0 <= k < |rest + pushed| ==> SafeZeroAt(width, height, s', (rest + pushed)[k])
    ensures forall i :: 0 <= i < |s'| && SafeZero(s'[i]) && s'[i].position !in rest + pushed ==>
              NoHiddenNeighbor(width, s', i)
    ensures Closed(width, s0) ==> s' == s0
  {
    var p := CellIndex(width, height, pos.0, pos.1);
    var queue := [pos] + rest;
    assert SafeZeroAt(width, height, s, queue[0]);
    QueueStep(width, height, s, s', pos, rest, pushed);
    if Closed(width, s0) {
      assert NoHiddenNeighbor(width, s, p);
      assert s' == s;
    }
    var queue' := rest + pushed;
    forall k | 0 <= k < |queue'|
      ensures SafeZeroAt(width, height, s', queue'[k])
    {
      if k < |rest| {
        assert SafeZeroAt(width, height, s, queue[k + 1]);
        var q := CellIndex(width, height, rest[k].0, rest[k].1);
        assert Facts(s[q]) == FactsOf(s)[q] == FactsOf(s')[q] == Facts(s'[q]);
      } else {
        assert queue'[k] == pushed[k - |rest|];
      }
    }
  }

  /** One pop of the queue, revealing the neighbours of `pos`, keeps the invariant. */
  lemma PopStep(width: nat, height: nat, s0: seq<Cell>, s: seq<Cell>, s': seq<Cell>, pos: Position,
                rest: seq<Position>, pushed: seq<Position>, enqueued: seq<Position>)
    requires WellFormed(width, height, s)
    requires PopInvariant(width, height, s0, s, [pos] + rest, enqueued)
    requires InBounds(width, height, pos.0, pos.1)
    requires var p := CellIndex(width, height, pos.0, pos.1);
             && RevealsOnly(s, s')
             && (forall i :: 0 <= i < |s| && s'[i] != s[i] ==> Adjacent(width, p, i))
             && NoHiddenNeighbor(width, s', p)
    requires forall i :: 0 <= i < |s| && s[i].state == Hidden && SafeZero(s'[i]) ==> s'[i].position in pushed
    requires forall k :: 0 <= k < |pushed| ==> SafeZeroAt(width, height, s', pushed[k])
    requires FreshEntries(width, height, s, pushed)
    requires |pushed| + HiddenCount(s') <= HiddenCount(s)
    ensures PopInvariant(width, height, s0, s', rest + pushed, enqueued + pushed)
  {
    var p := CellIndex(width, height, pos.0, pos.1);
    RevealsOnlyTransitive(s0, s, s');
    PopQueue(width, height, s0, s, s', pos, rest, pushed);
    assert Reached(width, height, s0, enqueued, ([pos] + rest)[0]);
    assert forall k :: 0 <= k < |rest| ==> rest[k] == ([pos] + rest)[k + 1];
    ReachStep(width, height, s0, s, s', pos, rest, enqueued, pushed);
    RecordStep(width, height, s0, s, s', enqueued, pushed);
  }

  /**
   * What `auto_reveal` leaves behind, started on cells `s0` and ending on `s`,
   * with `enqueued` the positions it queued beyond the seeds: only hidden,
   * bomb-free cells became revealed; no safe zero cell has a hidden neighbour;
   * the record holds, each once, exactly the cells that became safe zero cells,
   * each next to a seed or to one recorded before it; and every uncovered cell
   * neighbours a seed or a recorded cell.
   */
  ghost predicate FloodFilled(width: nat, height: nat, s0: seq<Cell>, s: seq<Cell>, enqueued: seq<Position>)
    requires width > 0
  {
    && |s0| == |s| == width * height
    && RevealsOnly(s0, s)
    && Closed(width, s)
    && FreshEntries(width, height, s0, enqueued)
    && (forall k :: 0 <= k < |enqueued| ==> SafeZeroAt(width, height, s, enqueued[k]))
    && (forall i :: 0 <= i < |s| && s0[i].state == Hidden && SafeZero(s[i]) ==> s[i].position in enqueued)
    && Chained(width, height, s0, enqueued)
    && (forall i :: 0 <= i < |s| && s0[i].state == Hidden && s[i].state != Hidden ==>
          ReachedNeighbor(width, height, s0, enqueued, i))
  }

  /** A position the fill spreads from in one result is a safe zero cell in any other. */
  lemma {:induction false} RecordedSafe(width: nat, height: nat, s0: seq<Cell>, t1: seq<Cell>, e1: seq<Position>,
                                        t2: seq<Cell>, k: nat)
    requires width > 0 && |s0| == |t1| == |t2| == width * height
    requires RevealsOnly(s0, t1) && RevealsOnly(s0, t2) && Closed(width, t2)
    requires FreshEntries(width, height, s0, e1) && Chained(width, height, s0, e1)
    requires forall k :: 0 <= k < |e1| ==> SafeZeroAt(width, height, t1, e1[k])
    requires k < |e1|
    ensures SafeZeroAt(width, height, t2, e1[k])
    decreases k
  {
    assert Chained(width, height, s0, e1);
    var q :| Reached(width, height, s0, e1[..k], q) && MooreAdjacent(q.0, q.1, e1[k].0, e1[k].1);
    ReachedSafe(width, height, s0, t1, e1, t2, k, q);
    var cq := CellIndex(width, height, q.0, q.1);
    var ce := CellIndex(width, height, e1[k].0, e1[k].1);
    assert Adjacent(width, cq, ce);
    assert NoHiddenNeighbor(width, t2, cq);
    assert SafeZeroAt(width, height, t1, e1[k]);
    assert Facts(t1[ce]) == FactsOf(t1)[ce] == FactsOf(s0)[ce] == FactsOf(t2)[ce] == Facts(t2[ce]);
  }

  /** A seed, or a position recorded before index `k` of one result, is a safe zero cell in any other. */
  lemma {:induction false} ReachedSafe(width: nat, height: nat, s0: seq<Cell>, t1: seq<Cell>, e1: seq<Position>,
                                       t2: seq<Cell>, k: nat, q: Position)
    requires width > 0 && |s0| == |t1| == |t2| == width * height
    requires RevealsOnly(s0, t1) && RevealsOnly(s0, t2) && Closed(width, t2)
    requires FreshEntries(width, height, s0, e1) && Chained(width, height, s0, e1)
    requires forall k :: 0 <= k < |e1| ==> SafeZeroAt(width, height, t1, e1[k])
    requires k <= |e1| && Reached(width, height, s0, e1[..k], q)
    ensures SafeZeroAt(width, height, t2, q)
    decreases k, 1
  {
    var cq := CellIndex(width, height, q.0, q.1);
    if SafeZero(s0[cq]) {
      assert Facts(s0[cq]) == FactsOf(s0)[cq] == FactsOf(t2)[cq] == Facts(t2[cq]);
    } else {
      var k' :| 0 <= k' < k && e1[..k][k'] == q;
      RecordedSafe(width, height, s0, t1, e1, t2, k');
    }
  }

  /** Whatever one result uncovers, any other result uncovers too. */
  lemma FloodFilledCovers(width: nat, height: nat, s0: seq<Cell>, t1: seq<Cell>, e1: seq<Position>,
                          t2: seq<Cell>, e2: seq<Position>)
    requires width > 0
    requires FloodFilled(width, height, s0, t1, e1) && FloodFilled(width, height, s0, t2, e2)
    ensures forall i :: 0 <= i < |s0| && s0[i].state == Hidden && t1[i].state != Hidden ==> t2[i].state != Hidden
  {
    forall i | 0 <= i < |s0| && s0[i].state == Hidden && t1[i].state != Hidden
      ensures t2[i].state != Hidden
    {
      var q :| Reached(width, height, s0, e1, q) && MooreAdjacent(q.0, q.1, Column(width, i), Row(width, i));
      assert e1[..|e1|] == e1;
      ReachedSafe(width, height, s0, t1, e1, t2, |e1|, q);
      var cq := CellIndex(width, height, q.0, q.1);
      assert Adjacent(width, cq, i);
      assert NoHiddenNeighbor(width, t2, cq);
    }
  }

  /**
   * The outcome of `auto_reveal` is determined by the cells it starts on: two
   * results that both meet `FloodFilled` from the same cells are equal.
   */
  lemma FloodFilledUnique(width: nat, height: nat, s0: seq<Cell>, t1: seq<Cell>, e1: seq<Position>,
                          t2: seq<Cell>, e2: seq<Position>)
    requires width > 0
    requires FloodFilled(width, height, s0, t1, e1) && FloodFilled(width, height, s0, t2, e2)
    ensures t1 == t2
  {
    FloodFilledCovers(width, height, s0, t1, e1, t2, e2);
    FloodFilledCovers(width, height, s0, t2, e2, t1, e1);
    forall i | 0 <= i < |s0|
      ensures t1[i] == t2[i]
    {
      assert Facts(t1[i]) == FactsOf(t1)[i] == FactsOf(s0)[i] == FactsOf(t2)[i] == Facts(t2[i]);
    }
  }

  class Game {
    const width: nat
    const height: nat
    /** The cell entities, cell `i` at grid position (i % width, i / width). */
    const cells: array<Cell>

    ghost predicate Valid()
      reads this, cells
    {
      WellFormed(width, height, cells[..])
    }

    /**
     * `setup`: bombs placed by fill-and-shuffle, counts computed from them, and
     * one hidden cell per grid position carrying its bomb flag and count.
     */
    constructor Setup(w: nat, h: nat, bombCount: nat)
      requires w > 0 && h > 0 && bombCount <= w * h
      ensures width == w && height == h && fresh(cells)
      ensures Valid()
      ensures forall i :: 0 <= i < cells.Length ==> cells[i].state == Hidden
      ensures multiset(BombsOf(cells[..])) == multiset(Filled(w * h, bombCount))
      ensures multiset(BombsOf(cells[..]))[true] == bombCount
    {
      var dist := GenerateRandomBoolArray(w * h, bombCount);
      var counts := ComputeNeighborCounts(w, h, dist);
      var a := new Cell[w * h](_ => DefaultCell());
      for x := 0 to w
        invariant forall i :: 0 <= i < w * h && Visited(w, i, x, 0) ==>
                    a[i] == Cell(Hidden, dist[i], (Column(w, i), Row(w, i)), counts[i])
      {
        for y := 0 to h
          invariant forall i :: 0 <= i < w * h && Visited(w, i, x, y) ==>
                      a[i] == Cell(Hidden, dist[i], (Column(w, i), Row(w, i)), counts[i])
        {
          var idx := CellIndex(w, h, x, y);
          a[idx] := Cell(Hidden, dist[idx], (x, y), counts[idx]);
          forall i | 0 <= i < w * h && Visited(w, i, x, y + 1) && i != idx
            ensures Visited(w, i, x, y)
          {
            IndexRoundTrip(w, h, i);
          }
        }
        forall i | 0 <= i < w * h && Visited(w, i, x + 1, 0)
          ensures Visited(w, i, x, h)
        {
          IndexRoundTrip(w, h, i);
        }
      }
      forall i | 0 <= i < w * h
        ensures Visited(w, i, w, 0)
      {
        IndexRoundTrip(w, h, i);
      }
      assert BombsOf(a[..]) == dist;
      width, height, cells := w, h, a;
    }

    /**
     * `click_system` once the cursor has been mapped to grid position (x, y):
     * with a button pressed and the position on the grid, that one cell takes
     * its click transition; every other cell is untouched. A position off the
     * grid is under no cell, so nothing changes.
     */
    method Click(x: int, y: int, left: bool, right: bool)
      requires Valid()
      modifies cells
      ensures Valid()
      ensures if (left || right) && InBounds(width, height, x, y) then
                var idx := CellIndex(width, height, x, y);
                cells[..] == old(cells[..])[idx := ClickCell(old(cells[idx]), left, right)]
              else
                cells[..] == old(cells[..])
    {
      if (left || right) && InBounds(width, height, x, y) {
        var idx := CellIndex(width, height, x, y);
        ghost var before := cells[..];
        cells[idx] := ClickCell(cells[idx], left, right);
        assert FactsOf(cells[..]) == FactsOf(before);
        WellFormedFacts(width, height, before, cells[..]);
      }
    }

    /**
     * The body of the `dx`/`dy` loops of `auto_reveal` for one offset: the
     * neighbour at (pos.0 + dx, pos.1 + dy), if it is on the grid and hidden,
     * is revealed, and queued when its count is zero.
     */
    method RevealAt(ghost s0: seq<Cell>, ghost p: nat, pos: Position, dx: int, dy: int, pushed: seq<Position>)
      returns (pushed': seq<Position>)
      requires width > 0 && |s0| == width * height && cells.Length == |s0|
      requires forall j :: 0 <= j < |s0| ==> s0[j].position == (Column(width, j), Row(width, j))
      requires InBounds(width, height, pos.0, pos.1) && p == CellIndex(width, height, pos.0, pos.1)
      requires forall j :: 0 <= j < |s0| && Adjacent(width, p, j) ==> !s0[j].isBomb
      requires -1 <= dx <= 1 && -1 <= dy <= 1
      requires ExpandedUpTo(width, height, s0, cells[..], p, (dx + 1) * 3 + dy + 1, pushed)
      requires FreshEntries(width, height, s0, pushed)
      modifies cells
      ensures ExpandedUpTo(width, height, s0, cells[..], p, (dx + 1) * 3 + dy + 2, pushed')
      ensures FreshEntries(width, height, s0, pushed')
    {
      pushed' := pushed;
      if dx == 0 && dy == 0 {
        ExpandSkip(width, height, s0, cells[..], p, dx, dy, pushed);
        return;
      }
      var nx, ny := pos.0 + dx, pos.1 + dy;
      if !InBounds(width, height, nx, ny) {
        ExpandSkip(width, height, s0, cells[..], p, dx, dy, pushed);
        return;
      }
      var idx := CellIndex(width, height, nx, ny);
      var c := cells[idx];
      if c.state != Hidden {
        ExpandSkip(width, height, s0, cells[..], p, dx, dy, pushed);
        return;
      }
      ghost var before := cells[..];
      assert Column(width, p) == pos.0 && Row(width, p) == pos.1;
      OffsetEncode(dx, dy);
      assert Adjacent(width, p, idx);
      assert s0[idx].position == (nx, ny);
      ExpandReveal(width, height, s0, before, p, dx, dy, pushed);
      if c.neighborBombs == 0 {
        FreshPush(width, height, s0, before, pushed, nx, ny);
        pushed' := pushed + [(nx, ny)];
      }
      cells[idx] := c.(state := Revealed);
      assert cells[..] == before[idx := before[idx].(state := Revealed)];
    }

    /**
     * One pop of the `auto_reveal` queue: every hidden Moore neighbour of the
     * safe zero cell at `pos` is revealed, and those with no bomb neighbours are
     * returned to be queued.
     */
    method RevealNeighbors(pos: Position) returns (pushed: seq<Position>)
      requires Valid() && SafeZeroAt(width, height, cells[..], pos)
      modifies cells
      ensures RevealsOnly(old(cells[..]), cells[..])
      ensures forall i :: 0 <= i < |old(cells[..])| && cells[..][i] != old(cells[..])[i] ==>
                Adjacent(width, CellIndex(width, height, pos.0, pos.1), i)
      ensures NoHiddenNeighbor(width, cells[..], CellIndex(width, height, pos.0, pos.1))
      ensures forall i :: 0 <= i < |old(cells[..])| && old(cells[..])[i].state == Hidden && SafeZero(cells[..][i]) ==>
                cells[..][i].position in pushed
      ensures forall k :: 0 <= k < |pushed| ==> SafeZeroAt(width, height, cells[..], pushed[k])
      ensures FreshEntries(width, height, old(cells[..]), pushed)
      ensures |pushed| + HiddenCount(cells[..]) <= HiddenCount(old(cells[..]))
    {
      ghost var s0 := cells[..];
      ghost var p := CellIndex(width, height, pos.0, pos.1);
      forall j | 0 <= j < |s0| && Adjacent(width, p, j)
        ensures !s0[j].isBomb
      {
        ZeroCountNeighborSafe(width, height, s0, p, j);
      }
      pushed := [];
      for dx := -1 to 2
        invariant ExpandedUpTo(width, height, s0, cells[..], p, (dx + 1) * 3, pushed)
        invariant FreshEntries(width, height, s0, pushed)
      {
        for dy := -1 to 2
          invariant ExpandedUpTo(width, height, s0, cells[..], p, (dx + 1) * 3 + dy + 1, pushed)
          invariant FreshEntries(width, height, s0, pushed)
        {
          pushed := RevealAt(s0, p, pos, dx, dy, pushed);
        }
      }
      forall j | 0 <= j < cells.Length && Adjacent(width, p, j)
        ensures cells[j].state != Hidden
      {
        OffsetBelowNine(width, p, j);
      }
    }
    /**
     * `auto_reveal`: seed a queue with every safe zero cell, then pop positions
     * until the queue is empty, revealing hidden neighbours and queueing those
     * with no bomb neighbours. Only hidden, bomb-free cells change, and only to
     * revealed; afterwards no safe zero cell has a hidden neighbour, so running
     * it again changes nothing. Beyond the seeds, no more positions are queued
     * than there were hidden cells.
     */
    method AutoReveal() returns (ghost enqueued: seq<Position>)
      requires Valid()
      modifies cells
      ensures Valid()
      ensures FloodFilled(width, height, old(cells[..]), cells[..], enqueued)
      ensures Closed(width, old(cells[..])) ==> cells[..] == old(cells[..])
      ensures |enqueued| <= HiddenCount(old(cells[..]))
    {
      ghost var s0 := cells[..];
      var queue: seq<Position> := [];
      for i := 0 to cells.Length
        invariant cells[..] == s0
        invariant forall k :: 0 <= k < |queue| ==> SafeZeroAt(width, height, cells[..], queue[k])
        invariant forall j :: 0 <= j < i && SafeZero(cells[j]) ==> cells[j].position in queue
      {
        var c := cells[i];
        if c.state == Revealed && c.neighborBombs == 0 && !c.isBomb {
          IndexRoundTrip(width, height, i);
          queue := queue + [c.position];
        }
      }
      enqueued := [];
      forall k | 0 <= k < |queue|
        ensures Reached(width, height, s0, enqueued, queue[k])
      {
        assert SafeZeroAt(width, height, s0, queue[k]);
      }
      while queue != []
        invariant Valid()
        invariant PopInvariant(width, height, s0, cells[..], queue, enqueued)
        decreases HiddenCount(cells[..]), |queue|
      {
        var pos := queue[0];
        var rest := queue[1..];
        assert queue == [pos] + rest;
        ghost var before := cells[..];
        var pushed := RevealNeighbors(pos);
        WellFormedFacts(width, height, before, cells[..]);
        PopStep(width, height, s0, before, cells[..], pos, rest, pushed, enqueued);
        queue := rest + pushed;
        enqueued := enqueued + pushed;
      }
    }
  }
}
