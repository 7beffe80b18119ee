/** The locker state store of the LockerGrid component.

    The store is an ordered sequence of locker records; index i of a grid
    with `columns` columns lies in column `i % columns`.  The pure functions
    compute the sequence each handler produces (the `Array.from` builder and
    the two `lockers.map` bodies); the class Store holds the component state
    and the single persisted storage entry and commits those sequences.
 */
module LockerGrid {
  import opened Decimal

  datatype Option<T> = None | Some(value: T)

  datatype Status = Available | Reserved | Open

  /** The three buttons of the detail dialog and of each column. */
  datatype Action = OpenLocker | CloseLocker | ReserveLocker

  /** One locker record: its id (a decimal string) and its status. */
  datatype Locker = Locker(id: string, status: Status)

  /** The inline action-to-status mapping: close frees the locker, open
      opens it, reserve reserves it; the prior status plays no part. */
  function Target(a: Action): (s: Status)
    ensures s == Available <==> a == CloseLocker
    ensures s == Open <==> a == OpenLocker
    ensures s == Reserved <==> a == ReserveLocker
  {
    match a
    case CloseLocker => Available
    case OpenLocker => Open
    case ReserveLocker => Reserved
  }

  /** The largest length a JavaScript array can have, 2^32 - 1. */
  const MaxArrayLength: nat := 0xFFFF_FFFF

  /** The length `Array.from` gives to `{ length: rows * columns }`, or None
      where it throws a RangeError: a non-positive product yields an empty
      array, and a product above MaxArrayLength is an invalid array length. */
  function GridSize(rows: int, columns: int): (r: Option<nat>)
    ensures r.None? <==> rows * columns > MaxArrayLength
    ensures r.Some? && rows * columns > 0 ==> r.value == rows * columns
    ensures r.Some? && rows * columns <= 0 ==> r.value == 0
  {
    if rows * columns > MaxArrayLength then None
    else if rows * columns > 0 then Some(rows * columns)
    else Some(0)
  }

  /** The data-model invariant of a grid: the record at position i has
      the decimal string of i as its id. */
  ghost predicate IdsArePositions(ls: seq<Locker>) {
    forall i :: 0 <= i < |ls| ==> ls[i].id == NatToString(i)
  }

  /** A freshly built grid of n records, all available. */
  function InitialLockers(n: nat): (r: seq<Locker>)
    ensures |r| == n
    ensures forall i :: 0 <= i < n ==> r[i].id == NatToString(i)
    ensures forall i :: 0 <= i < n ==> r[i].status == Available
    decreases n
  {
    if n == 0 then [] else InitialLockers(n - 1) + [Locker(NatToString(n - 1), Available)]
  }

  /** The single-locker map: every record whose id equals `id` takes the
      action's status, every other record is kept as it is. */
  function UpdateLocker(ls: seq<Locker>, id: string, a: Action): (r: seq<Locker>)
    ensures |r| == |ls|
    ensures forall i :: 0 <= i < |ls| ==> r[i].id == ls[i].id
    ensures forall i :: 0 <= i < |ls| && ls[i].id == id ==> r[i].status == Target(a)
    ensures forall i :: 0 <= i < |ls| && ls[i].id != id ==> r[i] == ls[i]
    decreases |ls|
  {
    if ls == [] then []
    else
      var k := |ls| - 1;
      UpdateLocker(ls[..k], id, a) + [if ls[k].id == id then ls[k].(status := Target(a)) else ls[k]]
  }

  /** JavaScript's `%` on integers: the remainder of the division truncated
      toward zero, which has the sign of the dividend. */
  function JsRemainder(a: int, b: int): int
    requires b != 0
  {
    var m := (if a < 0 then -a else a) % (if b < 0 then -b else b);
    if a < 0 then -m else m
  }

  /** Whether position `index` is matched by `index % columns === columnIndex`.
      A zero divisor gives NaN, which equals nothing; otherwise the test is
      JavaScript's truncating remainder, which for a non-negative index is
      Dafny's Euclidean one. */
  predicate InColumn(index: nat, columns: int, columnIndex: int): (b: bool)
    ensures b <==> columns != 0 && JsRemainder(index, columns) == columnIndex
  {
    assert columns < 0 ==> index % columns == index % -columns by {
      if columns < 0 {
        var q := index / -columns;
        assert index == -columns * q + index % -columns;
        assert index == columns * -q + index % -columns;
      }
    }
    columns != 0 && index % columns == columnIndex
  }

  /** The column map: the records at the positions of column `columnIndex`
      take the action's status, all others are kept as they are. */
  function UpdateColumn(ls: seq<Locker>, columns: int, columnIndex: int, a: Action): (r: seq<Locker>)
    ensures |r| == |ls|
    ensures forall i :: 0 <= i < |ls| ==> r[i].id == ls[i].id
    ensures forall i :: 0 <= i < |ls| && InColumn(i, columns, columnIndex) ==> r[i].status == Target(a)
    ensures forall i :: 0 <= i < |ls| && !InColumn(i, columns, columnIndex) ==> r[i] == ls[i]
    decreases |ls|
  {
    if ls == [] then []
    else
      var k := |ls| - 1;
      UpdateColumn(ls[..k], columns, columnIndex, a)
        + [if InColumn(k, columns, columnIndex) then ls[k].(status := Target(a)) else ls[k]]
  }

  /** A fresh grid satisfies the data-model invariant, and its ids are
      pairwise distinct. */
  lemma InitialLockersWellFormed(n: nat)
    ensures IdsArePositions(InitialLockers(n))
    ensures forall i, j :: 0 <= i < j < n ==> InitialLockers(n)[i].id != InitialLockers(n)[j].id
  {
    forall i, j | 0 <= i < j < n
      ensures InitialLockers(n)[i].id != InitialLockers(n)[j].id
    {
      NatToStringInjective(i, j);
    }
  }

  /** Both transitions keep the data-model invariant. */
  lemma UpdatesPreserveIds(ls: seq<Locker>, id: string, columns: int, columnIndex: int, a: Action)
    requires IdsArePositions(ls)
    ensures IdsArePositions(UpdateLocker(ls, id, a))
    ensures IdsArePositions(UpdateColumn(ls, columns, columnIndex, a))
  {
  }

  /** On a grid whose ids are its positions, acting on the locker with id
      `${k}` changes record k, and only it. */
  lemma UpdateLockerAtIndex(ls: seq<Locker>, k: nat, a: Action)
    requires IdsArePositions(ls)
    requires k < |ls|
    ensures UpdateLocker(ls, NatToString(k), a) == ls[k := ls[k].(status := Target(a))]
  {
    var r := UpdateLocker(ls, NatToString(k), a);
    forall i | 0 <= i < |ls|
      ensures r[i] == ls[k := ls[k].(status := Target(a))][i]
    {
      NatToStringInjective(i, k);
    }
  }

  /** An id that no record carries leaves the grid unchanged. */
  lemma UpdateLockerUnknownId(ls: seq<Locker>, id: string, a: Action)
    requires forall i :: 0 <= i < |ls| ==> ls[i].id != id
    ensures UpdateLocker(ls, id, a) == ls
  {
  }

  /** A column index outside [0, |columns|) matches no position, so the
      column transition leaves every record unchanged. */
  lemma UpdateColumnOutOfRange(ls: seq<Locker>, columns: int, columnIndex: int, a: Action)
    requires columnIndex < 0 || columnIndex >= (if columns < 0 then -columns else columns)
    ensures UpdateColumn(ls, columns, columnIndex, a) == ls
  {
  }

  /** Of two locker actions on the same id, the second one decides. */
  lemma UpdateLockerLastWins(ls: seq<Locker>, id: string, a: Action, b: Action)
    ensures UpdateLocker(UpdateLocker(ls, id, a), id, b) == UpdateLocker(ls, id, b)
  {
  }

  /** Repeating a locker action changes nothing more. */
  lemma UpdateLockerIdempotent(ls: seq<Locker>, id: string, a: Action)
    ensures UpdateLocker(UpdateLocker(ls, id, a), id, a) == UpdateLocker(ls, id, a)
  {
    UpdateLockerLastWins(ls, id, a, a);
  }

  /** Actions on two different ids commute. */
  lemma UpdateLockerCommutes(ls: seq<Locker>, id1: string, a: Action, id2: string, b: Action)
    requires id1 != id2
    ensures UpdateLocker(UpdateLocker(ls, id1, a), id2, b) == UpdateLocker(UpdateLocker(ls, id2, b), id1, a)
  {
  }

  /** Of two actions on the same column, the second one decides. */
  lemma UpdateColumnLastWins(ls: seq<Locker>, columns: int, columnIndex: int, a: Action, b: Action)
    ensures UpdateColumn(UpdateColumn(ls, columns, columnIndex, a), columns, columnIndex, b)
         == UpdateColumn(ls, columns, columnIndex, b)
  {
  }

  /** Repeating a column action changes nothing more. */
  lemma UpdateColumnIdempotent(ls: seq<Locker>, columns: int, columnIndex: int, a: Action)
    ensures UpdateColumn(UpdateColumn(ls, columns, columnIndex, a), columns, columnIndex, a)
         == UpdateColumn(ls, columns, columnIndex, a)
  {
    UpdateColumnLastWins(ls, columns, columnIndex, a, a);
  }

  /** Actions on two different columns commute. */
  lemma UpdateColumnCommutes(ls: seq<Locker>, columns: int, c1: int, a: Action, c2: int, b: Action)
    requires c1 != c2
    ensures UpdateColumn(UpdateColumn(ls, columns, c1, a), columns, c2, b)
         == UpdateColumn(UpdateColumn(ls, columns, c2, b), columns, c1, a)
  {
  }

  /** Open, close and reserve applied in turn to one locker of a grid
      whose ids are its positions give open, available and reserved,
      whatever its status was; the rest of the grid never changes. */
  lemma ActionSequenceOnLocker(ls: seq<Locker>, k: nat)
    requires IdsArePositions(ls)
    requires k < |ls|
    ensures var id := NatToString(k);
            var r1 := UpdateLocker(ls, id, OpenLocker);
            var r2 := UpdateLocker(r1, id, CloseLocker);
            var r3 := UpdateLocker(r2, id, ReserveLocker);
            r1 == ls[k := Locker(id, Open)] &&
            r2 == ls[k := Locker(id, Available)] &&
            r3 == ls[k := Locker(id, Reserved)]
  {
    var id := NatToString(k);
    UpdateLockerAtIndex(ls, k, OpenLocker);
    UpdateLockerLastWins(ls, id, OpenLocker, CloseLocker);
    UpdateLockerAtIndex(ls, k, CloseLocker);
    UpdateLockerLastWins(ls, id, CloseLocker, ReserveLocker);
    UpdateLockerAtIndex(ls, k, ReserveLocker);
  }

  /** Reserving column 1 of a fresh 2-by-4 grid reserves lockers 1 and 5
      and leaves the other six as they were. */
  lemma ReserveColumnOfTwoByFour()
    ensures GridSize(2, 4) == Some(8)
    ensures var g := InitialLockers(8);
            var r := UpdateColumn(g, 4, 1, ReserveLocker);
            |r| == 8 && r[1].status == Reserved && r[5].status == Reserved &&
            r[0] == g[0] && r[2] == g[2] && r[3] == g[3] &&
            r[4] == g[4] && r[6] == g[6] && r[7] == g[7]
  {
  }

  /** The component's state: its props, its three pieces of React state,
      and the `'lockers'` entry of local storage (absent, or the sequence
      last written; the JSON round trip is taken as the identity). */
  class Store {
    const rows: int
    const columns: int
    var lockers: seq<Locker>
    var selected: Option<Locker>
    var dialogOpen: bool
    var storage: Option<seq<Locker>>

    /** Storage holds exactly the sequence on display. */
    ghost predicate Persisted()
      reads this
    {
      storage == Some(lockers)
    }

    /** Mounting the component: the initial React state, over whatever the
        storage entry already holds. */
    constructor (rows: int, columns: int, saved: Option<seq<Locker>>)
      ensures this.rows == rows && this.columns == columns
      ensures lockers == [] && selected == None && !dialogOpen
      ensures storage == saved
    {
      this.rows := rows;
      this.columns := columns;
      lockers := [];
      selected := None;
      dialogOpen := false;
      storage := saved;
    }

    /** The effect run on mount: load the saved grid verbatim (whatever its
        length), or build a fresh one of rows * columns records and save it.
        `fault` reports the RangeError of an invalid array length, thrown
        before any state or storage is written. */
    method Initialize() returns (fault: bool)
      modifies this
      ensures fault <==> old(storage).None? && GridSize(rows, columns).None?
      ensures old(storage).Some? ==> lockers == old(storage).value && storage == old(storage)
      ensures old(storage).None? && !fault ==>
        lockers == InitialLockers(GridSize(rows, columns).value) && storage == Some(lockers)
      ensures fault ==> lockers == old(lockers) && storage == old(storage)
      ensures !fault ==> Persisted()
      ensures selected == old(selected) && dialogOpen == old(dialogOpen)
    {
      fault := false;
      match storage
      case Some(saved) =>
        lockers := saved;
      case None =>
        match GridSize(rows, columns)
        case None =>
          fault := true;
        case Some(n) =>
          lockers := InitialLockers(n);
          storage := Some(lockers);
    }

    /** Clicking a locker selects it and opens the detail dialog. */
    method Click(locker: Locker)
      modifies this
      ensures selected == Some(locker) && dialogOpen
      ensures lockers == old(lockers) && storage == old(storage)
    {
      selected := Some(locker);
      dialogOpen := true;
    }

    /** Dismissing the dialog closes it and changes nothing else. */
    method CloseDialog()
      modifies this
      ensures !dialogOpen
      ensures lockers == old(lockers) && storage == old(storage) && selected == old(selected)
    {
      dialogOpen := false;
    }

    /** A dialog button: with no locker selected nothing happens; otherwise
        the records carrying the selected id take the action's status, the
        whole grid is saved and the dialog closes.  The selection itself is
        kept, with the status it had when it was clicked. */
    method LockerAction(a: Action)
      modifies this
      ensures old(selected).None? ==>
        lockers == old(lockers) && storage == old(storage) && dialogOpen == old(dialogOpen)
      ensures old(selected).Some? ==>
        lockers == UpdateLocker(old(lockers), old(selected).value.id, a) && Persisted() && !dialogOpen
      ensures selected == old(selected)
    {
      if selected.None? {
        return;
      }
      var next := UpdateLocker(lockers, selected.value.id, a);
      lockers := next;
      storage := Some(next);
      dialogOpen := false;
    }

    /** A column button: the records of column `columnIndex` take the
        action's status and the whole grid is saved. */
    method ColumnAction(columnIndex: int, a: Action)
      modifies this
      ensures lockers == UpdateColumn(old(lockers), columns, columnIndex, a)
      ensures Persisted()
      ensures selected == old(selected) && dialogOpen == old(dialogOpen)
    {
      var next := UpdateColumn(lockers, columns, columnIndex, a);
      lockers := next;
      storage := Some(next);
    }
  }

  /** Mounting twice over the same storage entry (the second time with any
      dimensions) shows the same grid: the first mount decides it, and the
      second loads what the first saved.  Only a first mount that builds a
      grid of invalid length faults. */
  method RemountKeepsGrid(rows: int, columns: int, saved: Option<seq<Locker>>, rows2: int, columns2: int)
    returns (fault: bool, first: seq<Locker>, second: seq<Locker>)
    ensures fault <==> saved.None? && GridSize(rows, columns).None?
    ensures !fault ==> second == first
    ensures saved.Some? ==> first == saved.value
    ensures saved.None? && !fault ==> first == InitialLockers(GridSize(rows, columns).value)
  {
    var s1 := new Store(rows, columns, saved);
    fault := s1.Initialize();
    first := s1.lockers;
    var s2 := new Store(rows2, columns2, s1.storage);
    var fault2 := s2.Initialize();
    second := s2.lockers;
  }

  /** On a fresh grid, clicking locker k and pressing a dialog button sets
      locker k, and no other, to the action's status, saves the grid and
      closes the dialog. */
  method ActOnFreshGrid(rows: int, columns: int, k: nat, a: Action)
    returns (after: seq<Locker>, saved: Option<seq<Locker>>, dialog: bool)
    requires GridSize(rows, columns).Some? && k < GridSize(rows, columns).value
    ensures after == InitialLockers(GridSize(rows, columns).value)[k := Locker(NatToString(k), Target(a))]
    ensures saved == Some(after) && !dialog
  {
    var s := new Store(rows, columns, None);
    var fault := s.Initialize();
    assert IdsArePositions(s.lockers);
    s.Click(s.lockers[k]);
    UpdateLockerAtIndex(s.lockers, k, a);
    s.LockerAction(a);
    after, saved, dialog := s.lockers, s.storage, s.dialogOpen;
  }
}
