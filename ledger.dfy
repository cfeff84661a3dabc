/** The lending ledger of `app.py`: the rows of the "peminjaman" table, the
    rewrite performed by `update_status`, the derivation of the active holder
    (`peminjam_aktif`) and the three guarded menu actions, all as functions
    over the sequence of rows, with the invariant they keep. */
module Ledger {
  import opened Text

  datatype Option<T> = None | Some(value: T)

  /** One row of the "peminjaman" table. */
  datatype Loan = Loan(
    nama: string,            // borrower
    barang: string,          // the item, always "iPhone 13" when written by the app
    tanggalPinjam: string,   // checkout time
    tanggalKembali: string,  // time the row was closed, "-" while open
    status: string,          // "Dipinjam", "Dikembalikan" or "Dipindahkan"
    dipindahkanKe: string    // recipient of a transfer, "-" otherwise
  )

  const Barang: string := "iPhone 13"
  /** The placeholder written into empty columns. */
  const Kosong: string := "-"
  /** Status of the open (checked out) row. */
  const Dipinjam: string := "Dipinjam"
  /** Status of a row closed by a return. */
  const Dikembalikan: string := "Dikembalikan"
  /** Status of a row closed by a transfer. */
  const Dipindahkan: string := "Dipindahkan"

  predicate IsActive(r: Loan) {
    r.status == Dipinjam
  }

  /** The row `pinjam(nama)` inserts at time `now`. */
  function NewLoan(nama: string, now: string): Loan {
    Loan(nama, Barang, now, Kosong, Dipinjam, Kosong)
  }

  // ---------------------------------------------------------------------
  // update_status

  /** The filter `.eq("nama", namaAsal).eq("status", "Dipinjam")`. */
  predicate Matches(r: Loan, namaAsal: string) {
    r.nama == namaAsal && IsActive(r)
  }

  /** The columns `update_status` writes into a matching row. */
  function Close(r: Loan, status: string, dipindahkanKe: string, now: string): Loan {
    r.(status := status, tanggalKembali := now, dipindahkanKe := dipindahkanKe)
  }

  /** One row after `update_status`: rewritten if it matches, else as it was. */
  function Rewrite(r: Loan, namaAsal: string, status: string, dipindahkanKe: string, now: string): Loan {
    if Matches(r, namaAsal) then Close(r, status, dipindahkanKe, now) else r
  }

  /** The table after `update_status(namaAsal, status, dipindahkanKe)` at `now`. */
  function UpdateRows(rows: seq<Loan>, namaAsal: string, status: string, dipindahkanKe: string, now: string): seq<Loan> {
    if rows == [] then []
    else [Rewrite(rows[0], namaAsal, status, dipindahkanKe, now)]
         + UpdateRows(rows[1..], namaAsal, status, dipindahkanKe, now)
  }

  /** The update keeps the number of rows and rewrites each row on its own:
      a matching row gets the new status, return time and recipient and keeps
      its name, item and checkout time; any other row is left as it was. */
  lemma {:induction false} UpdateRowsPointwise(rows: seq<Loan>, namaAsal: string, status: string, dipindahkanKe: string, now: string)
    ensures |UpdateRows(rows, namaAsal, status, dipindahkanKe, now)| == |rows|
    ensures forall i :: 0 <= i < |rows| ==>
      var r := UpdateRows(rows, namaAsal, status, dipindahkanKe, now)[i];
      if Matches(rows[i], namaAsal)
      then r.status == status && r.tanggalKembali == now && r.dipindahkanKe == dipindahkanKe &&
           r.nama == rows[i].nama && r.barang == rows[i].barang && r.tanggalPinjam == rows[i].tanggalPinjam
      else r == rows[i]
  {
    if rows != [] {
      UpdateRowsPointwise(rows[1..], namaAsal, status, dipindahkanKe, now);
      var r := UpdateRows(rows, namaAsal, status, dipindahkanKe, now);
      forall i | 0 < i < |rows|
        ensures r[i] == UpdateRows(rows[1..], namaAsal, status, dipindahkanKe, now)[i - 1]
      {
      }
    }
  }

  // ---------------------------------------------------------------------
  // The active holder

  /** No row is checked out. */
  predicate NoneActive(rows: seq<Loan>) {
    forall j :: 0 <= j < |rows| ==> !IsActive(rows[j])
  }

  /** Row `i` is the first checked-out row. */
  predicate FirstActiveAt(rows: seq<Loan>, i: int) {
    0 <= i < |rows| && IsActive(rows[i]) && forall j :: 0 <= j < i ==> !IsActive(rows[j])
  }

  /** `df[df["status"] == "Dipinjam"]`: the checked-out rows, in table order.
      Every row it keeps is checked out and comes from the table, and every
      checked-out row of the table is kept. */
  function Aktif(rows: seq<Loan>): (a: seq<Loan>)
    ensures |a| <= |rows|
    ensures forall r :: r in a ==> IsActive(r) && r in rows
    ensures forall i :: 0 <= i < |rows| && IsActive(rows[i]) ==> rows[i] in a
  {
    if rows == [] then []
    else (if IsActive(rows[0]) then [rows[0]] else []) + Aktif(rows[1..])
  }

  /** `peminjam_aktif`: the name on the first checked-out row, or none. */
  function ActiveHolder(rows: seq<Loan>): Option<string> {
    var a := Aktif(rows);
    if a == [] then None else Some(a[0].nama)
  }

  /** Filtering distributes over concatenation of tables. */
  lemma {:induction false} AktifAppend(xs: seq<Loan>, ys: seq<Loan>)
    ensures Aktif(xs + ys) == Aktif(xs) + Aktif(ys)
  {
    if xs != [] {
      assert (xs + ys)[1..] == xs[1..] + ys;
      AktifAppend(xs[1..], ys);
    } else {
      assert xs + ys == ys;
    }
  }

  /** The first row the filter keeps is the first checked-out row. */
  lemma {:induction false} AktifFirst(rows: seq<Loan>, i: int)
    requires FirstActiveAt(rows, i)
    ensures Aktif(rows) != [] && Aktif(rows)[0] == rows[i]
  {
    if i > 0 {
      AktifFirst(rows[1..], i - 1);
    }
  }

  /** A table with some checked-out row has a first one. */
  lemma {:induction false} FirstActiveExists(rows: seq<Loan>)
    requires !NoneActive(rows)
    ensures exists i :: FirstActiveAt(rows, i)
  {
    if IsActive(rows[0]) {
      assert FirstActiveAt(rows, 0);
    } else {
      FirstActiveExists(rows[1..]);
      var i :| FirstActiveAt(rows[1..], i);
      assert FirstActiveAt(rows, i + 1);
    }
  }

  /** The active holder is none exactly when no row is checked out, and
      otherwise the name on the first checked-out row. */
  lemma ActiveHolderSpec(rows: seq<Loan>)
    ensures ActiveHolder(rows) == None <==> NoneActive(rows)
    ensures forall i :: FirstActiveAt(rows, i) ==> ActiveHolder(rows) == Some(rows[i].nama)
  {
    if !NoneActive(rows) {
      FirstActiveExists(rows);
      var i :| FirstActiveAt(rows, i);
      assert rows[i] in Aktif(rows);
    }
    if Aktif(rows) != [] {
      assert Aktif(rows)[0] in Aktif(rows);
    }
    forall i | FirstActiveAt(rows, i)
      ensures ActiveHolder(rows) == Some(rows[i].nama)
    {
      AktifFirst(rows, i);
    }
  }

  /** The source's guard `if peminjam_aktif:`: Python treats both `None` and
      the empty string as false. */
  predicate Occupied(h: Option<string>) {
    h.Some? && h.value != ""
  }

  // ---------------------------------------------------------------------
  // The invariant

  /** At most one row is checked out. */
  predicate AtMostOneActive(rows: seq<Loan>) {
    forall i, j :: 0 <= i < j < |rows| && IsActive(rows[i]) ==> !IsActive(rows[j])
  }

  /** Equivalently, the filter `df["status"] == "Dipinjam"` keeps at most one row. */
  lemma {:induction false} AtMostOneActiveIffFilter(rows: seq<Loan>)
    ensures AtMostOneActive(rows) <==> |Aktif(rows)| <= 1
  {
    if rows != [] {
      var tail := rows[1..];
      AtMostOneActiveIffFilter(tail);
      assert AtMostOneActive(rows) <==>
        AtMostOneActive(tail) && (IsActive(rows[0]) ==> NoneActive(tail)) by {
        if AtMostOneActive(rows) {
          forall i, j | 0 <= i < j < |tail| && IsActive(tail[i]) ensures !IsActive(tail[j]) {
            assert tail[i] == rows[i + 1] && tail[j] == rows[j + 1];
          }
          if IsActive(rows[0]) {
            forall j | 0 <= j < |tail| ensures !IsActive(tail[j]) {
              assert tail[j] == rows[j + 1];
            }
          }
        }
        if AtMostOneActive(tail) && (IsActive(rows[0]) ==> NoneActive(tail)) {
          forall i, j | 0 <= i < j < |rows| && IsActive(rows[i]) ensures !IsActive(rows[j]) {
            assert rows[j] == tail[j - 1];
            if i > 0 { assert rows[i] == tail[i - 1]; }
          }
        }
      }
      ActiveHolderSpec(tail);
      if !NoneActive(tail) {
        FirstActiveExists(tail);
      }
    }
  }

  /** The status and recipient `update_status` is called with: a return
      with no recipient, or a transfer to a non-blank recipient. */
  predicate ClosingOk(status: string, dipindahkanKe: string) {
    (status == Dikembalikan && dipindahkanKe == Kosong) ||
    (status == Dipindahkan && !IsBlank(dipindahkanKe))
  }

  /** A row as the app writes it: the fixed item, a non-blank borrower, one of
      the three statuses, and the columns each status implies. */
  predicate RowOk(r: Loan) {
    r.barang == Barang && !IsBlank(r.nama) &&
    (r.status == Dipinjam || r.status == Dikembalikan || r.status == Dipindahkan) &&
    (r.status == Dipinjam ==> r.tanggalKembali == Kosong && r.dipindahkanKe == Kosong) &&
    (r.status == Dikembalikan ==> r.dipindahkanKe == Kosong) &&
    (r.status == Dipindahkan ==> !IsBlank(r.dipindahkanKe))
  }

  /** The ledger invariant: every row well formed, at most one checked out. */
  predicate Valid(rows: seq<Loan>) {
    AtMostOneActive(rows) && forall i :: 0 <= i < |rows| ==> RowOk(rows[i])
  }

  /** On a valid table the guard `if peminjam_aktif:` holds exactly when some
      row is checked out, and then names the holder of that row. */
  lemma OccupiedIffActive(rows: seq<Loan>)
    requires Valid(rows)
    ensures Occupied(ActiveHolder(rows)) <==> !NoneActive(rows)
    ensures forall i :: 0 <= i < |rows| && IsActive(rows[i]) ==> ActiveHolder(rows) == Some(rows[i].nama)
  {
    ActiveHolderSpec(rows);
    forall i | 0 <= i < |rows| && IsActive(rows[i])
      ensures ActiveHolder(rows) == Some(rows[i].nama)
    {
      assert FirstActiveAt(rows, i);
    }
    if !NoneActive(rows) {
      var i :| 0 <= i < |rows| && IsActive(rows[i]);
      assert !IsBlank(rows[i].nama);
    }
  }

  // ---------------------------------------------------------------------
  // The menu actions

  /** What the page shows after an action. */
  datatype Outcome =
    | Done                   // success message; the table was written
    | Busy(holder: string)   // "sedang dipinjam oleh <holder>": checkout refused
    | NameRequired           // "Nama peminjam harus diisi!": checkout refused
    | Available              // "sedang tersedia": nothing to return or transfer
    | Ignored                // transfer with a blank recipient: nothing happens

  datatype Step = Step(outcome: Outcome, rows: seq<Loan>)

  /** The "Pinjam" menu: refused while the item is out (reporting the holder),
      refused for a name that strips to nothing, otherwise one new checked-out
      row for the name, as typed, is appended and nothing else changes. */
  function CheckoutStep(rows: seq<Loan>, nama: string, now: string): (r: Step)
    ensures Occupied(ActiveHolder(rows)) ==> r == Step(Busy(ActiveHolder(rows).value), rows)
    ensures !Occupied(ActiveHolder(rows)) && IsBlank(nama) ==> r == Step(NameRequired, rows)
    ensures !Occupied(ActiveHolder(rows)) && !IsBlank(nama) ==>
      r.outcome == Done && |r.rows| == |rows| + 1 && r.rows[..|rows|] == rows &&
      r.rows[|rows|] == Loan(nama, Barang, now, Kosong, Dipinjam, Kosong)
  {
    var holder := ActiveHolder(rows);
    StripEmptyIffBlank(nama);
    if Occupied(holder) then Step(Busy(holder.value), rows)
    else if Strip(nama) == "" then Step(NameRequired, rows)
    else Step(Done, rows + [NewLoan(nama, now)])
  }

  /** "Kembalikan ke Stok": with a holder, their checked-out rows are closed
      as returned; without one, the table is left alone. Either way the
      number of rows does not change. */
  function ReturnStep(rows: seq<Loan>, now: string): (r: Step)
    ensures |r.rows| == |rows|
    ensures r.outcome == Done <==> Occupied(ActiveHolder(rows))
    ensures !Occupied(ActiveHolder(rows)) ==> r.rows == rows
  {
    var holder := ActiveHolder(rows);
    UpdateRowsPointwise(rows, if holder.Some? then holder.value else "", Dikembalikan, Kosong, now);
    if Occupied(holder) then Step(Done, UpdateRows(rows, holder.value, Dikembalikan, Kosong, now))
    else Step(Available, rows)
  }

  /** "Pindahkan ke Peminjam Lain": with a holder and a recipient that does
      not strip to nothing, the holder's checked-out rows are closed as
      transferred to the recipient (at `closedAt`) and a checked-out row for
      the recipient is appended (at `openedAt`); otherwise nothing changes. */
  function TransferStep(rows: seq<Loan>, penerima: string, closedAt: string, openedAt: string): (r: Step)
    ensures !Occupied(ActiveHolder(rows)) ==> r == Step(Available, rows)
    ensures Occupied(ActiveHolder(rows)) && IsBlank(penerima) ==> r == Step(Ignored, rows)
    ensures Occupied(ActiveHolder(rows)) && !IsBlank(penerima) ==>
      r.outcome == Done && |r.rows| == |rows| + 1 &&
      r.rows[|rows|] == Loan(penerima, Barang, openedAt, Kosong, Dipinjam, Kosong)
  {
    var holder := ActiveHolder(rows);
    StripEmptyIffBlank(penerima);
    if !Occupied(holder) then Step(Available, rows)
    else if Strip(penerima) == "" then Step(Ignored, rows)
    else
      UpdateRowsPointwise(rows, holder.value, Dipindahkan, penerima, closedAt);
      Step(Done, UpdateRows(rows, holder.value, Dipindahkan, penerima, closedAt) + [NewLoan(penerima, openedAt)])
  }

  // ---------------------------------------------------------------------
  // What the actions do on a valid table

  /** Closing the one checked-out row of a valid table (as `update_status`
      does with its holder's name) leaves no row checked out and touches no
      other row. */
  lemma CloseActive(rows: seq<Loan>, i: int, status: string, dipindahkanKe: string, now: string)
    requires Valid(rows) && 0 <= i < |rows| && IsActive(rows[i])
    requires ClosingOk(status, dipindahkanKe)
    ensures var u := UpdateRows(rows, rows[i].nama, status, dipindahkanKe, now);
      |u| == |rows| && NoneActive(u) && Valid(u) &&
      u[i] == rows[i].(status := status, tanggalKembali := now, dipindahkanKe := dipindahkanKe) &&
      forall j :: 0 <= j < |rows| && j != i ==> u[j] == rows[j]
  {
    UpdateRowsPointwise(rows, rows[i].nama, status, dipindahkanKe, now);
    var u := UpdateRows(rows, rows[i].nama, status, dipindahkanKe, now);
    forall j | 0 <= j < |rows| && j != i ensures u[j] == rows[j] && !IsActive(u[j]) {
    }
    assert RowOk(u[i]);
  }

  /** Appending a well-formed row to a valid table with nothing checked out
      keeps the table valid. */
  lemma AppendToIdle(u: seq<Loan>, x: Loan)
    requires Valid(u) && NoneActive(u) && RowOk(x)
    ensures Valid(u + [x])
  {
    var r := u + [x];
    assert forall k :: 0 <= k < |u| ==> r[k] == u[k];
  }

  /** Checkout from a table with no checked-out row, with a name that does
      not strip to nothing, makes that name the active holder. */
  lemma CheckoutMakesHolder(rows: seq<Loan>, nama: string, now: string)
    requires NoneActive(rows) && !IsBlank(nama)
    ensures CheckoutStep(rows, nama, now).outcome == Done
    ensures ActiveHolder(CheckoutStep(rows, nama, now).rows) == Some(nama)
  {
    ActiveHolderSpec(rows);
    AktifAppend(rows, [NewLoan(nama, now)]);
    assert Aktif(rows) == [];
  }

  /** Checkout keeps the invariant: on a valid table it appends only when
      nothing is out. */
  lemma CheckoutPreservesValid(rows: seq<Loan>, nama: string, now: string)
    requires Valid(rows)
    ensures !NoneActive(rows) ==> CheckoutStep(rows, nama, now).rows == rows
    ensures Valid(CheckoutStep(rows, nama, now).rows)
  {
    OccupiedIffActive(rows);
    var r := CheckoutStep(rows, nama, now).rows;
    if r != rows {
      assert r == rows + [NewLoan(nama, now)];
      AppendToIdle(rows, NewLoan(nama, now));
    }
  }

  /** Return from a valid table whose checked-out row is row `i`, held by
      `rows[i].nama`: row `i` is closed as returned at `now` with no
      recipient, every other row is unchanged, and nobody holds the item. */
  lemma ReturnClosesHolderRow(rows: seq<Loan>, i: int, now: string)
    requires Valid(rows) && 0 <= i < |rows| && IsActive(rows[i])
    ensures var r := ReturnStep(rows, now);
      r.outcome == Done && |r.rows| == |rows| &&
      r.rows[i] == rows[i].(status := Dikembalikan, tanggalKembali := now, dipindahkanKe := Kosong) &&
      (forall j :: 0 <= j < |rows| && j != i ==> r.rows[j] == rows[j]) &&
      ActiveHolder(r.rows) == None
  {
    OccupiedIffActive(rows);
    CloseActive(rows, i, Dikembalikan, Kosong, now);
    ActiveHolderSpec(ReturnStep(rows, now).rows);
  }

  /** Return keeps the invariant. */
  lemma ReturnPreservesValid(rows: seq<Loan>, now: string)
    requires Valid(rows)
    ensures Valid(ReturnStep(rows, now).rows)
  {
    OccupiedIffActive(rows);
    if !NoneActive(rows) {
      var i :| 0 <= i < |rows| && IsActive(rows[i]);
      CloseActive(rows, i, Dikembalikan, Kosong, now);
    }
  }

  /** Transfer from a valid table whose checked-out row is row `i` to a
      recipient that does not strip to nothing: row `i` is closed as
      transferred to the recipient, every other old row is unchanged, one
      row is appended, and the recipient becomes the active holder. */
  lemma TransferMovesHolder(rows: seq<Loan>, i: int, penerima: string, closedAt: string, openedAt: string)
    requires Valid(rows) && 0 <= i < |rows| && IsActive(rows[i])
    requires !IsBlank(penerima)
    ensures var r := TransferStep(rows, penerima, closedAt, openedAt);
      r.outcome == Done && |r.rows| == |rows| + 1 &&
      r.rows[i] == rows[i].(status := Dipindahkan, tanggalKembali := closedAt, dipindahkanKe := penerima) &&
      (forall j :: 0 <= j < |rows| && j != i ==> r.rows[j] == rows[j]) &&
      ActiveHolder(r.rows) == Some(penerima)
  {
    OccupiedIffActive(rows);
    CloseActive(rows, i, Dipindahkan, penerima, closedAt);
    var u := UpdateRows(rows, rows[i].nama, Dipindahkan, penerima, closedAt);
    ActiveHolderSpec(u);
    AktifAppend(u, [NewLoan(penerima, openedAt)]);
  }

  /** Transfer keeps the invariant. */
  lemma TransferPreservesValid(rows: seq<Loan>, penerima: string, closedAt: string, openedAt: string)
    requires Valid(rows)
    ensures Valid(TransferStep(rows, penerima, closedAt, openedAt).rows)
  {
    OccupiedIffActive(rows);
    StripEmptyIffBlank(penerima);
    if !NoneActive(rows) && !IsBlank(penerima) {
      var i :| 0 <= i < |rows| && IsActive(rows[i]);
      CloseActive(rows, i, Dipindahkan, penerima, closedAt);
      var u := UpdateRows(rows, rows[i].nama, Dipindahkan, penerima, closedAt);
      assert TransferStep(rows, penerima, closedAt, openedAt).rows == u + [NewLoan(penerima, openedAt)];
      AppendToIdle(u, NewLoan(penerima, openedAt));
    }
  }

  // ---------------------------------------------------------------------
  // History only grows

  /** `now` is `was` closed: same borrower, item and checkout time, and no
      longer checked out. */
  predicate ClosedFrom(was: Loan, now: Loan) {
    IsActive(was) && !IsActive(now) &&
    now.nama == was.nama && now.barang == was.barang && now.tanggalPinjam == was.tanggalPinjam
  }

  /** `after` extends `before`: no row is removed, and an old row is either
      unchanged or a checked-out row that has been closed. */
  predicate Evolves(before: seq<Loan>, after: seq<Loan>) {
    |before| <= |after| &&
    forall i :: 0 <= i < |before| ==> after[i] == before[i] || ClosedFrom(before[i], after[i])
  }

  lemma EvolvesTransitive(a: seq<Loan>, b: seq<Loan>, c: seq<Loan>)
    requires Evolves(a, b) && Evolves(b, c)
    ensures Evolves(a, c)
  {
    forall i | 0 <= i < |a| ensures c[i] == a[i] || ClosedFrom(a[i], c[i]) {
      assert c[i] == b[i] || ClosedFrom(b[i], c[i]);
    }
  }

  /** Checkout, on any table, only appends: every old row stays as it was. */
  lemma CheckoutEvolves(rows: seq<Loan>, nama: string, now: string)
    ensures Evolves(rows, CheckoutStep(rows, nama, now).rows)
    ensures CheckoutStep(rows, nama, now).rows[..|rows|] == rows
  {
    var r := CheckoutStep(rows, nama, now).rows;
    assert forall i :: 0 <= i < |rows| ==> r[i] == rows[i];
  }

  /** Return, on any table, removes no row and changes only checked-out rows,
      which it closes. */
  lemma ReturnEvolves(rows: seq<Loan>, now: string)
    ensures Evolves(rows, ReturnStep(rows, now).rows)
  {
    var h := ActiveHolder(rows);
    if Occupied(h) {
      UpdateRowsPointwise(rows, h.value, Dikembalikan, Kosong, now);
    }
  }

  /** Transfer, on any table, removes no row and changes only checked-out
      rows, which it closes. */
  lemma TransferEvolves(rows: seq<Loan>, penerima: string, closedAt: string, openedAt: string)
    ensures Evolves(rows, TransferStep(rows, penerima, closedAt, openedAt).rows)
  {
    var h := ActiveHolder(rows);
    var t := TransferStep(rows, penerima, closedAt, openedAt).rows;
    if t != rows {
      UpdateRowsPointwise(rows, h.value, Dipindahkan, penerima, closedAt);
      var u := UpdateRows(rows, h.value, Dipindahkan, penerima, closedAt);
      assert forall i :: 0 <= i < |rows| ==> t[i] == u[i];
    }
  }
}
