/** Sequences of menu actions applied one after another, as successive page
    submissions do, and what holds of the table after any such run. */
module History {
  import opened Text
  import opened Ledger

  /** One submitted form. */
  datatype Action =
    | Checkout(nama: string, now: string)
    | Return(now: string)
    | Transfer(penerima: string, closedAt: string, openedAt: string)

  function Apply(rows: seq<Loan>, a: Action): Step {
    match a
    case Checkout(nama, now) => CheckoutStep(rows, nama, now)
    case Return(now) => ReturnStep(rows, now)
    case Transfer(penerima, closedAt, openedAt) => TransferStep(rows, penerima, closedAt, openedAt)
  }

  /** The table after the actions `acts`, in order, starting from `rows`. */
  function Run(rows: seq<Loan>, acts: seq<Action>): seq<Loan>
    decreases |acts|
  {
    if acts == [] then rows else Run(Apply(rows, acts[0]).rows, acts[1..])
  }

  /** Any run from a valid table (the empty table included) ends in a valid
      table: never more than one row checked out. */
  lemma {:induction false} RunPreservesValid(rows: seq<Loan>, acts: seq<Action>)
    requires Valid(rows)
    ensures Valid(Run(rows, acts))
    decreases |acts|
  {
    if acts != [] {
      match acts[0] {
        case Checkout(nama, now) => CheckoutPreservesValid(rows, nama, now);
        case Return(now) => ReturnPreservesValid(rows, now);
        case Transfer(penerima, closedAt, openedAt) => TransferPreservesValid(rows, penerima, closedAt, openedAt);
      }
      RunPreservesValid(Apply(rows, acts[0]).rows, acts[1..]);
    }
  }

  /** History never shrinks: after any run every earlier row is still there,
      either unchanged or closed with its borrower, item and checkout time
      intact. */
  lemma {:induction false} RunEvolves(rows: seq<Loan>, acts: seq<Action>)
    ensures Evolves(rows, Run(rows, acts))
    decreases |acts|
  {
    if acts == [] {
      assert forall i :: 0 <= i < |rows| ==> Run(rows, acts)[i] == rows[i];
    } else {
      var next := Apply(rows, acts[0]).rows;
      match acts[0] {
        case Checkout(nama, now) => CheckoutEvolves(rows, nama, now);
        case Return(now) => ReturnEvolves(rows, now);
        case Transfer(penerima, closedAt, openedAt) => TransferEvolves(rows, penerima, closedAt, openedAt);
      }
      RunEvolves(next, acts[1..]);
      EvolvesTransitive(rows, next, Run(next, acts[1..]));
    }
  }

  /** On an empty table, checking out `a` makes `a` the holder; returning
      it then leaves no holder and `a`'s row returned at the second time. */
  lemma CheckoutThenReturn(a: string, t1: string, t2: string)
    requires !IsBlank(a)
    ensures ActiveHolder(CheckoutStep([], a, t1).rows) == Some(a)
    ensures var after := ReturnStep(CheckoutStep([], a, t1).rows, t2).rows;
      ActiveHolder(after) == None && |after| == 1 &&
      after[0] == Loan(a, Barang, t1, t2, Dikembalikan, Kosong)
  {
    var one := [NewLoan(a, t1)];
    assert CheckoutStep([], a, t1).rows == one;
    CheckoutMakesHolder([], a, t1);
    assert Valid(one);
    ReturnClosesHolderRow(one, 0, t2);
  }

  /** On an empty table, checking out `a` and transferring to `b`: `b`
      holds the item, `a`'s row is closed as transferred to `b`, and `b`'s
      new row is checked out. */
  lemma CheckoutThenTransfer(a: string, b: string, t1: string, t2: string, t3: string)
    requires !IsBlank(a) && !IsBlank(b)
    ensures var after := TransferStep(CheckoutStep([], a, t1).rows, b, t2, t3).rows;
      ActiveHolder(after) == Some(b) && |after| == 2 &&
      after[0] == Loan(a, Barang, t1, t2, Dipindahkan, b) &&
      after[1] == Loan(b, Barang, t3, Kosong, Dipinjam, Kosong)
  {
    var one := [NewLoan(a, t1)];
    assert CheckoutStep([], a, t1).rows == one;
    assert Valid(one);
    TransferMovesHolder(one, 0, b, t2, t3);
  }

  /** A name that is empty or only spaces is refused and nothing is written. */
  lemma BlankNamesRefused(rows: seq<Loan>, now: string)
    requires !Occupied(ActiveHolder(rows))
    ensures CheckoutStep(rows, "", now) == Step(NameRequired, rows)
    ensures CheckoutStep(rows, "   ", now) == Step(NameRequired, rows)
  {
  }
}
