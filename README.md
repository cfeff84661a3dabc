# Peminjaman iPhone 13 — a verified model of the lending ledger

The application tracks one physical item, an "iPhone 13", through a single
hosted table named `peminjaman`. Each row records one loan: the borrower
(`nama`), the item (`barang`), the checkout time (`tanggal_pinjam`), the time
the row was closed (`tanggal_kembali`, `"-"` while open), the status, and the
recipient of a transfer (`dipindahkan_ke`, `"-"` otherwise). The status is
`"Dipinjam"` (checked out), `"Dikembalikan"` (returned) or `"Dipindahkan"`
(transferred).

Two write operations act on the table:

- `pinjam` inserts a checked-out row.
- `update_status` rewrites the status, return time and recipient of every row
  that has the given name and is checked out.

The current holder (`peminjam_aktif`) is never stored. It is recomputed on
every page load as the name on the first checked-out row. Three menu actions
are built on these operations:

- Checkout is refused while someone holds the item or when the name strips to
  nothing.
- Return closes the holder's row.
- Transfer closes the holder's row as transferred and opens a new one for the
  recipient, provided the recipient does not strip to nothing.

The model replaces the hosted table with an in-memory sequence of rows. An
insert appends a row. An update with two equality filters rewrites every row
that matches both.

- `text.dfy` (module `Text`): Python's `str.strip()` and `str.isspace()`.
- `ledger.dfy` (module `Ledger`): the row type, `update_status` as a function
  on the rows, the filter-then-first holder derivation, the ledger invariant
  (`Valid`: every row well formed, at most one checked out) and the three
  actions as functions from a table to an outcome and a new table, with what
  they promise.
- `table.dfy` (module `App`): the class `Peminjaman`. It holds the rows and has
  the methods `Pinjam` and `UpdateStatus`, which change them in place, and the
  guarded actions built from those two calls, each proved equal to its
  function in `Ledger`.
- `history.dfy` (module `History`): sequences of actions. The invariant holds
  after any run, history never shrinks, and three scenarios (checkout then
  return, checkout then transfer, blank names refused) are stated as lemmas.

Points of the code's behaviour worth noting:

- The holder is the first checked-out row in the order the store returns the
  rows, whichever row that is.
- A return also writes `"-"` into `dipindahkan_ke`, through the default
  argument of `update_status`.
- Names are stored as typed. They are only stripped for the emptiness test.
- The guard `if peminjam_aktif:` is Python truthiness, so an empty-string
  holder counts as no holder. `Occupied` models this. `OccupiedIffActive`
  shows that it makes no difference on a valid table, where no name is blank.
- After checkout then return, the table holds one row, not one row per
  operation. Return writes into an existing row; only checkout and transfer add
  rows (`ReturnStep`, `Ledger.CheckoutEvolves`).

## Model

| member | source | states |
|---|---|---|
| Text.TrimStart | app.py:56 | leading part of `strip()`: the result is a suffix of the input, what was dropped is all whitespace, and the result does not start with whitespace |
| Text.TrimEnd | app.py:56 | trailing part of `strip()`: the result is a prefix of the input, what was dropped is all whitespace, and the result does not end with whitespace |
| Text.StripEmptyIffBlank | app.py:56 | `nama.strip() == ""` holds exactly when every character of the name is whitespace |
| App.Peminjaman.Pinjam | app.py:20-28 | the table grows by exactly one row, every earlier row is unchanged, and the new last row is {nama, "iPhone 13", now, "-", "Dipinjam", "-"} |
| App.Peminjaman.UpdateStatus | app.py:30-35 | same number of rows; each row with the given name and status "Dipinjam" gets the new status, return time and recipient and keeps its name, item and checkout time; every other row is identical |
| Ledger.UpdateRowsPointwise | app.py:30-35 | the update as a function on the table: it keeps the length and rewrites each matching row, and only those, in exactly the three written columns |
| Ledger.Aktif | app.py:41 | the filter on status "Dipinjam" keeps only checked-out rows of the table, keeps every one of them, and is no longer than the table |
| Ledger.AktifAppend | app.py:41 | filtering the concatenation of two tables is the concatenation of the filtered tables |
| Ledger.AktifFirst | app.py:41-43 | the first row the filter keeps is the first checked-out row of the table |
| Ledger.FirstActiveExists | app.py:41-43 | a table with some checked-out row has a first one |
| Ledger.ActiveHolderSpec | app.py:38-43 | the holder is none exactly when no row is checked out, and otherwise it is the name on the first checked-out row |
| Ledger.AtMostOneActiveIffFilter | app.py:41 | "at most one row is checked out" is the same as "the filter keeps at most one row" |
| Ledger.OccupiedIffActive | app.py:51 | on a valid table the truthiness guard on the holder holds exactly when some row is checked out, and then names the borrower of any checked-out row |
| Ledger.CheckoutStep | app.py:51-59 | checkout with a holder present reports that holder and writes nothing; with a blank name it reports the error and writes nothing; otherwise it appends exactly the new checked-out row for the name as typed |
| Ledger.ReturnStep | app.py:65-81 | return never changes the number of rows; it succeeds exactly when there is a holder, and without one the table is unchanged |
| Ledger.TransferStep | app.py:65-81 | transfer without a holder or with a blank recipient writes nothing; otherwise it grows the table by exactly one row, the recipient's checked-out row |
| Ledger.CloseActive | app.py:30-35 | on a valid table, `update_status` with the holder's name closes exactly the one checked-out row and no other, leaves no row checked out, and keeps the table valid |
| Ledger.AppendToIdle | app.py:20-28 | appending a well-formed row to a valid table with nothing checked out keeps it valid |
| Ledger.CheckoutMakesHolder | app.py:51-59 | a successful checkout of a non-blank name from a table with no checked-out row makes that name the holder |
| Ledger.CheckoutPreservesValid | app.py:51-59 | checkout keeps at most one row checked out, and all rows well formed; on a valid table with a checked-out row it leaves the table unchanged, so it appends only when nothing is out |
| Ledger.ReturnClosesHolderRow | app.py:73-74 | return from a valid table whose checked-out row is row i: row i becomes "Dikembalikan" with return time now and recipient "-", every other row is unchanged, and there is no holder afterwards |
| Ledger.ReturnPreservesValid | app.py:73-74 | return keeps the ledger invariant |
| Ledger.TransferMovesHolder | app.py:76-78 | transfer to a non-blank recipient from a valid table whose checked-out row is row i: row i becomes "Dipindahkan" to the recipient, the other old rows are unchanged, one row is added, and the recipient is the holder |
| Ledger.TransferPreservesValid | app.py:76-78 | transfer keeps the ledger invariant |
| Ledger.EvolvesTransitive | app.py:20-35 | "no row removed, old rows unchanged or closed from checked out" composes across steps |
| Ledger.CheckoutEvolves | app.py:59 | checkout removes and changes no row: the old table is a prefix of the new one |
| Ledger.ReturnEvolves | app.py:74 | return removes no row and only closes checked-out rows, keeping their borrower, item and checkout time |
| Ledger.TransferEvolves | app.py:77-78 | transfer removes no row and only closes checked-out rows, keeping their borrower, item and checkout time |
| App.Peminjaman.Checkout | app.py:49-60 | the "Pinjam" menu, built from the `pinjam` call, has exactly the outcome and new table of `CheckoutStep`, and keeps the invariant |
| App.Peminjaman.ReturnItem | app.py:65-75 | "Kembalikan ke Stok", built from the `update_status` call, has exactly the outcome and new table of `ReturnStep`, and keeps the invariant |
| App.Peminjaman.Transfer | app.py:65-79 | "Pindahkan ke Peminjam Lain", `update_status` followed by `pinjam`, has exactly the outcome and new table of `TransferStep`, and keeps the invariant |
| History.RunPreservesValid | app.py:49-79 | from a valid table, including the empty one, any sequence of checkouts, returns and transfers leaves at most one row checked out |
| History.RunEvolves | app.py:20-35 | after any sequence of actions no row has been removed, and every old row is unchanged or closed from checked out |
| History.CheckoutThenReturn | app.py:51-59 | on an empty table, checkout of a makes a the holder; a following return leaves one row, a's, returned at the second time, and no holder |
| History.CheckoutThenTransfer | app.py:76-78 | on an empty table, checkout of a then transfer to b leaves two rows: a's row transferred to b and b's row checked out, and b the holder |
| History.BlankNamesRefused | app.py:56-57 | with no holder, checkout of "" and of "   " is refused and writes nothing |

## Left out

- The Streamlit page is not modelled: page setup, sidebar radio, text inputs, buttons, and the success, warning and info messages. These are presentation only. The `Outcome` datatype stands for which message is shown.
- Creating the Supabase client, its URL and key, and the `.execute()` network calls are not modelled. The hosted table is the in-memory sequence `Peminjaman.rows`. Network and authentication failures are not modelled, so every write succeeds.
- The pandas DataFrame and `st.dataframe` are not modelled. The history view is the sequence of rows itself.
- `datetime.now().strftime(...)` is not modelled. Each write takes its time as an opaque string parameter. Transfer takes two, because the source reads the clock once in `update_status` and again in `pinjam`.
- Races between clients are not modelled. Neither is a transfer whose second write fails after its first succeeded. The model applies actions one at a time, and a transfer's two writes both happen.
- The model assumes the hosted table is written only by this app and starts empty, or at least valid (`Valid`: every row well formed, at most one checked out). `CloseActive`, `ReturnClosesHolderRow`, `TransferMovesHolder` and the `*PreservesValid` lemmas require `Valid`. Rows written by other clients or by hand are not covered. This includes a checked-out row with an empty borrower, which the guard at app.py:51 treats as no holder, so checkout would add a second checked-out row.
- The order in which the store returns rows is not modelled: it is taken to be the sequence order. The source picks the first checked-out row in whatever order the store returns, which the model cannot pin down.
- Text.IsSpace: follows the whitespace set of Python's `str.isspace()` as listed. Python's Unicode database is not modelled beyond that set.
