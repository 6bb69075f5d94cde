/** Phase 4 of `fix_model`: integer coordinates from the slice index, a per-type column
    offset and a per-slice, per-type row counter. */
module LayoutEngine {
  import opened EventModel

  const SLICE_WIDTH: nat := 1200
  const SLICE_GAP: nat := 100
  const ROW_HEIGHT: nat := 180
  const BASE_Y: nat := 100
  const HEIGHT: nat := 120

  /** `TYPE_X.get(etype, 0)`: the column offset of a type within its slice. */
  function TypeX(t: TypeTag): (r: nat)
    ensures r <= 750 < SLICE_WIDTH
    ensures r == 0 <==> t !in {Command, Automation, SchemaEvent, SchemaReadModel}
  {
    match t
    case Screen => 0
    case Command => 250
    case Automation => 500
    case SchemaEvent => 500
    case SchemaReadModel => 750
    case _ => 0
  }

  /** A layout entry `{x, y, height, type, title}`. */
  datatype Placement = Placement(x: int, y: int, height: int, kind: TypeTag, title: string)

  /** The entry of an element of slice `sliceIndex` that is preceded by `rank` elements of
      its own type in that slice. */
  function Place(sliceIndex: nat, rank: nat, e: Element): (r: Placement)
    ensures r.kind == e.kind && r.title == e.title && r.height == HEIGHT
    ensures sliceIndex * (SLICE_WIDTH + SLICE_GAP) <= r.x < sliceIndex * (SLICE_WIDTH + SLICE_GAP) + SLICE_WIDTH
    ensures BASE_Y <= r.y
  {
    Placement(sliceIndex * (SLICE_WIDTH + SLICE_GAP) + TypeX(e.kind), BASE_Y + rank * ROW_HEIGHT,
              HEIGHT, e.kind, e.title)
  }

  /** The number of elements of type t in es (the counter of t once es has been seen). */
  function CountKind(es: seq<Element>, t: TypeTag): (r: nat)
    ensures r <= |es|
    decreases |es|
  {
    if es == [] then 0
    else CountKind(es[..|es| - 1], t) + (if es[|es| - 1].kind == t then 1 else 0)
  }

  /** How many elements of its own type precede element j of a slice. */
  function Rank(es: seq<Element>, j: nat): nat
    requires j < |es|
  {
    CountKind(es[..j], es[j].kind)
  }

  /** The set of ids of a sequence of elements. */
  function IdSet(es: seq<Element>): set<string> {
    set e | e in es :: e.id
  }

  /** Lines 137-151 for slice i: each element's entry, later entries overwriting earlier
      ones with the same id. */
  function LayoutRow(i: nat, es: seq<Element>): (r: map<string, Placement>)
    ensures r.Keys == IdSet(es)
    decreases |es|
  {
    if es == [] then map[]
    else
      var pre := es[..|es| - 1];
      var last := es[|es| - 1];
      assert es == pre + [last];
      LayoutRow(i, pre)[last.id := Place(i, CountKind(pre, last.kind), last)]
  }

  /** Lines 117-151: the rows of all slices, in slice order. */
  function LayoutAll(rows: seq<seq<Element>>): (r: map<string, Placement>)
    ensures forall i, j | 0 <= i < |rows| && 0 <= j < |rows[i]| :: rows[i][j].id in r
    ensures forall id | id in r :: exists i | 0 <= i < |rows| :: id in IdSet(rows[i])
    decreases |rows|
  {
    if rows == [] then map[]
    else
      var n := |rows| - 1;
      var r := LayoutAll(rows[..n]) + LayoutRow(n, rows[n]);
      assert forall i | 0 <= i < n :: rows[..n][i] == rows[i];
      assert forall j | 0 <= j < |rows[n]| :: rows[n][j] in rows[n];
      r
  }

  /** No id occurs twice anywhere in the rows. */
  predicate DistinctRows(rows: seq<seq<Element>>) {
    forall i, j, i', j' |
      && 0 <= i < |rows| && 0 <= j < |rows[i]|
      && 0 <= i' < |rows| && 0 <= j' < |rows[i']|
      && (i != i' || j != j') ::
      rows[i][j].id != rows[i'][j'].id
  }

  lemma {:induction false} LayoutRowAt(i: nat, es: seq<Element>, j: nat)
    requires j < |es|
    requires forall a, b | 0 <= a < b < |es| :: es[a].id != es[b].id
    ensures es[j].id in LayoutRow(i, es)
    ensures LayoutRow(i, es)[es[j].id] == Place(i, Rank(es, j), es[j])
    decreases |es|
  {
    var pre := es[..|es| - 1];
    var last := es[|es| - 1];
    if j < |es| - 1 {
      assert pre[j] == es[j];
      assert pre[..j] == es[..j];
      LayoutRowAt(i, pre, j);
    } else {
      assert es[..j] == pre;
    }
  }

  /** With unique ids, the k-th element (0-based) of type T in slice i is placed at
      x = i * 1300 + TYPE_X[T], y = 100 + k * 180, with height 120 and its type and title. */
  lemma {:induction false} LayoutAllAt(rows: seq<seq<Element>>, i: nat, j: nat)
    requires DistinctRows(rows)
    requires i < |rows| && j < |rows[i]|
    ensures rows[i][j].id in LayoutAll(rows)
    ensures LayoutAll(rows)[rows[i][j].id] == Place(i, Rank(rows[i], j), rows[i][j])
    ensures LayoutAll(rows)[rows[i][j].id].x == i * 1300 + TypeX(rows[i][j].kind)
    ensures LayoutAll(rows)[rows[i][j].id].y == 100 + CountKind(rows[i][..j], rows[i][j].kind) * 180
    ensures LayoutAll(rows)[rows[i][j].id].height == 120
    decreases |rows|
  {
    var n := |rows| - 1;
    if i == n {
      LayoutRowAt(n, rows[n], j);
    } else {
      NotInLastRow(rows, i, j);
      DistinctRowsPrefix(rows);
      assert rows[..n][i] == rows[i];
      LayoutAllAt(rows[..n], i, j);
    }
  }

  lemma DistinctRowsPrefix(rows: seq<seq<Element>>)
    requires DistinctRows(rows) && rows != []
    ensures DistinctRows(rows[..|rows| - 1])
  {
    var pre: seq<seq<Element>> := rows[..|rows| - 1];
    forall a: nat, b: nat, a': nat, b': nat |
      && 0 <= a < |pre| && 0 <= b < |pre[a]|
      && 0 <= a' < |pre| && 0 <= b' < |pre[a']|
      && (a != a' || b != b')
      ensures pre[a][b].id != pre[a'][b'].id
    {
      assert pre[a] == rows[a] && pre[a'] == rows[a'];
    }
  }

  lemma NotInLastRow(rows: seq<seq<Element>>, i: nat, j: nat)
    requires DistinctRows(rows)
    requires i < |rows| - 1 && j < |rows[i]|
    ensures rows[i][j].id !in IdSet(rows[|rows| - 1])
  {
    var n := |rows| - 1;
    forall e | e in rows[n] ensures e.id != rows[i][j].id {
      var j' :| 0 <= j' < |rows[n]| && rows[n][j'] == e;
      assert rows[n][j'].id != rows[i][j].id;
    }
  }

  lemma {:induction false} CountKindMonotone(es: seq<Element>, a: nat, b: nat, t: TypeTag)
    requires a <= b <= |es|
    ensures CountKind(es[..a], t) <= CountKind(es[..b], t)
    decreases b - a
  {
    if a < b {
      CountKindMonotone(es, a, b - 1, t);
      assert es[..b][..b - 1] == es[..b - 1];
    }
  }

  /** Same-type elements of one slice get strictly increasing y, at least one row apart:
      the counters never repeat a value within a slice. */
  lemma RankIncreasing(i: nat, es: seq<Element>, j: nat, j': nat)
    requires j < j' < |es| && es[j].kind == es[j'].kind
    ensures Rank(es, j) < Rank(es, j')
    ensures Place(i, Rank(es, j), es[j]).y + ROW_HEIGHT <= Place(i, Rank(es, j'), es[j']).y
  {
    assert es[..j + 1][..j] == es[..j];
    CountKindMonotone(es, j + 1, j', es[j].kind);
  }

  /** A point determines its slice, its column and its row: x lies in [1300i, 1300i + 750],
      so x div 1300 is the slice index, x mod 1300 the column offset of the type, and
      (y - 100) div 180 the rank. */
  lemma PlaceBand(i: nat, rank: nat, e: Element)
    ensures i * 1300 <= Place(i, rank, e).x <= i * 1300 + 750
    ensures Place(i, rank, e).x / 1300 == i
    ensures Place(i, rank, e).x % 1300 == TypeX(e.kind)
    ensures (Place(i, rank, e).y - BASE_Y) / ROW_HEIGHT == rank
  {
  }

  /** Neighbouring slices come closer than a slice width: the READMODEL column of slice i
      and the SCREEN column of slice i + 1 are only 550 apart. */
  lemma NeighbourSlicesGap(i: nat, r1: nat, r2: nat, rm: Element, sc: Element)
    requires rm.kind == SchemaReadModel && sc.kind == Screen
    ensures Place(i + 1, r2, sc).x - Place(i, r1, rm).x == 550 < SLICE_WIDTH
  {
  }

  /** Coordinates are not unique across types: the first EVENT and the first AUTOMATION
      of a slice land on the same point, because both columns are at offset 500 and each
      type has its own counter. */
  lemma EventAndAutomationShareCell(i: nat, ev: Element, auto: Element)
    requires ev.kind == SchemaEvent && auto.kind == Automation && ev.id != auto.id
    ensures LayoutRow(i, [ev, auto])[ev.id].x == LayoutRow(i, [ev, auto])[auto.id].x
    ensures LayoutRow(i, [ev, auto])[ev.id].y == LayoutRow(i, [ev, auto])[auto.id].y
  {
    LayoutRowAt(i, [ev, auto], 0);
    LayoutRowAt(i, [ev, auto], 1);
    assert [ev, auto][..1] == [ev];
    assert [ev][..0] == [] && [ev, auto][..0] == [];
    assert Rank([ev, auto], 0) == CountKind([], SchemaEvent) == 0;
    assert CountKind([ev], Automation) == CountKind([], Automation) + 0 == 0;
    assert Rank([ev, auto], 1) == 0;
  }
}
