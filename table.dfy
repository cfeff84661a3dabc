/** The app's state: the hosted "peminjaman" table, held here as a sequence
    of rows that the operations of `app.py` rewrite in place. */
module App {
  import opened Text
  import opened Ledger

  class Peminjaman {
    /** Every row, in the order the store returns them (`get_data`). */
    var rows: seq<Loan>

    /** A table with no transactions yet. */
    constructor ()
      ensures rows == []
    {
      rows := [];
    }

    /** `peminjam_aktif`, recomputed from the whole table. */
    function PeminjamAktif(): Option<string>
      reads this
    {
      ActiveHolder(rows)
    }

    /** `pinjam(nama)`: inserts one checked-out row for `nama` at `now`; the
        rows already there are untouched. */
    method Pinjam(nama: string, now: string)
      modifies this
      ensures |rows| == |old(rows)| + 1 && rows[..|old(rows)|] == old(rows)
      ensures rows[|old(rows)|] == Loan(nama, Barang, now, Kosong, Dipinjam, Kosong)
      ensures rows == old(rows) + [NewLoan(nama, now)]
    {
      rows := rows + [NewLoan(nama, now)];
    }

    /** `update_status(namaAsal, status, dipindahkanKe)`: every row whose
        name is `namaAsal` and whose status is "Dipinjam" gets the new status,
        return time `now` and recipient; its name, item and checkout time stay;
        every other row is untouched and no row is added or removed. */
    method UpdateStatus(namaAsal: string, status: string, dipindahkanKe: string, now: string)
      modifies this
      ensures |rows| == |old(rows)|
      ensures forall i :: 0 <= i < |rows| ==>
        if Matches(old(rows)[i], namaAsal)
        then rows[i] == old(rows)[i].(status := status, tanggalKembali := now, dipindahkanKe := dipindahkanKe)
        else rows[i] == old(rows)[i]
      ensures rows == UpdateRows(old(rows), namaAsal, status, dipindahkanKe, now)
    {
      UpdateRowsPointwise(rows, namaAsal, status, dipindahkanKe, now);
      rows := UpdateRows(rows, namaAsal, status, dipindahkanKe, now);
    }

    /** The "Pinjam" menu with the form submitted as `nama`. */
    method Checkout(nama: string, now: string) returns (outcome: Outcome)
      modifies this
      ensures Step(outcome, rows) == CheckoutStep(old(rows), nama, now)
      ensures Valid(old(rows)) ==> Valid(rows)
    {
      ghost var next := CheckoutStep(rows, nama, now);
      ghost var wasValid := Valid(rows);
      if wasValid { CheckoutPreservesValid(rows, nama, now); }
      var holder := PeminjamAktif();
      if Occupied(holder) {
        outcome := Busy(holder.value);
      } else if Strip(nama) == "" {
        outcome := NameRequired;
      } else {
        Pinjam(nama, now);
        outcome := Done;
      }
      assert rows == next.rows;
    }

    /** "Kembalikan ke Stok" submitted with "Proses". */
    method ReturnItem(now: string) returns (outcome: Outcome)
      modifies this
      ensures Step(outcome, rows) == ReturnStep(old(rows), now)
      ensures Valid(old(rows)) ==> Valid(rows)
    {
      ghost var next := ReturnStep(rows, now);
      ghost var wasValid := Valid(rows);
      if wasValid { ReturnPreservesValid(rows, now); }
      var holder := PeminjamAktif();
      if Occupied(holder) {
        UpdateStatus(holder.value, Dikembalikan, Kosong, now);
        outcome := Done;
      } else {
        outcome := Available;
      }
      assert rows == next.rows;
    }

    /** "Pindahkan ke Peminjam Lain" submitted with "Proses" and recipient
        `penerima`: the two writes of the source, `update_status` at
        `closedAt`, then `pinjam` at `openedAt`. */
    method Transfer(penerima: string, closedAt: string, openedAt: string) returns (outcome: Outcome)
      modifies this
      ensures Step(outcome, rows) == TransferStep(old(rows), penerima, closedAt, openedAt)
      ensures Valid(old(rows)) ==> Valid(rows)
    {
      ghost var next := TransferStep(rows, penerima, closedAt, openedAt);
      ghost var wasValid := Valid(rows);
      if wasValid { TransferPreservesValid(rows, penerima, closedAt, openedAt); }
      var holder := PeminjamAktif();
      if !Occupied(holder) {
        outcome := Available;
      } else if Strip(penerima) != "" {
        UpdateStatus(holder.value, Dipindahkan, penerima, closedAt);
        Pinjam(penerima, openedAt);
        outcome := Done;
      } else {
        outcome := Ignored;
      }
      assert rows == next.rows;
    }
  }
}
