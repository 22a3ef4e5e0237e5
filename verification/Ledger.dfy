/**
 The balances table and the three ledger operations, run one at a time.  Every
 operation is the list of UPDATE statements it issues; the transactions of
 LedgerConcurrency interleave the same statements.
 */
module Ledger {
  import opened Common
  import opened Money

  /** Primary key of the balances table. */
  datatype Key = Key(wallet: int, currency: string)

  /** The balances table: whole hundredths per row. */
  type Rows = map<Key, int>

  datatype Op =
    | Deposit(wallet: int, currency: string, amount: real)
    | Withdraw(wallet: int, currency: string, amount: real)
    | Exchange(wallet: int, from: string, to: string, debit: real, credit: real)

  /** UPDATE balances SET amount = amount + delta WHERE the key matches [AND amount >= guard]. */
  datatype Update = Update(key: Key, delta: real, guard: Option<real>)

  function Statements(op: Op): (us: seq<Update>)
    ensures 1 <= |us| <= 2
  {
    match op
    case Deposit(w, c, a) => [Update(Key(w, c), a, None)]
    case Withdraw(w, c, a) => [Update(Key(w, c), -a, Some(a))]
    case Exchange(w, f, t, d, c) => [Update(Key(w, f), -d, Some(d)), Update(Key(w, t), c, None)]
  }

  /** Only the exchange credit ignores the number of rows it changed. */
  predicate MustHit(op: Op, i: nat) {
    !(op.Exchange? && i == 1)
  }

  datatype Hit = NoRow | OutOfRange | Written(cents: int)

  /** The guard compares the unrounded amount; the assignment rounds. */
  function RunUpdate(view: Rows, u: Update): Hit {
    if u.key !in view then NoRow
    else if u.guard.Some? && !(view[u.key] as real >= u.guard.value) then NoRow
    else
      var n := Round(view[u.key] as real + u.delta);
      if Fits(n) then Written(n) else OutOfRange
  }

  /** Refused: a statement that had to change a row changed none.  Overflowed: the database raised an error. */
  datatype Outcome = Done(rows: Rows) | Refused | Overflowed

  function RunStatement(view: Rows, op: Op, i: nat): Outcome
    requires i < |Statements(op)|
  {
    var u := Statements(op)[i];
    match RunUpdate(view, u)
    case NoRow => if MustHit(op, i) then Refused else Done(view)
    case OutOfRange => Overflowed
    case Written(n) => Done(view[u.key := n])
  }

  /** What the transaction sees after its first i statements. */
  function After(rows: Rows, op: Op, i: nat): Outcome
    requires i <= |Statements(op)|
  {
    if i == 0 then Done(rows) else
      match After(rows, op, i - 1)
      case Done(view) => RunStatement(view, op, i - 1)
      case Refused => Refused
      case Overflowed => Overflowed
  }

  function Apply(rows: Rows, op: Op): Outcome {
    After(rows, op, |Statements(op)|)
  }

  /** Running the committed operations of a history one after the other. */
  function Replay(rows: Rows, h: seq<Op>): (r: Rows)
  {
    if h == [] then rows else
      var before := Replay(rows, h[..|h| - 1]);
      match Apply(before, h[|h| - 1])
      case Done(after) => after
      case Refused => before
      case Overflowed => before
  }

  /** Every operation of the history succeeds at its turn. */
  ghost predicate AllCommit(rows: Rows, h: seq<Op>) {
    forall n: nat {:trigger h[n]} :: n < |h| ==> Apply(Replay(rows, h[..n]), h[n]).Done?
  }

  lemma ReplayExtend(rows: Rows, h: seq<Op>, op: Op)
    requires AllCommit(rows, h) && Apply(Replay(rows, h), op).Done?
    ensures AllCommit(rows, h + [op])
    ensures Replay(rows, h + [op]) == Apply(Replay(rows, h), op).rows
  {
    var g := h + [op];
    assert g[..|g| - 1] == h;
    forall n: nat | n < |g| ensures Apply(Replay(rows, g[..n]), g[n]).Done? {
      if n < |h| { assert g[..n] == h[..n] && g[n] == h[n]; } else { assert g[..n] == h; }
    }
  }

  lemma ApplyKeepsKeys(rows: Rows, op: Op)
    ensures Apply(rows, op).Done? ==> Apply(rows, op).rows.Keys == rows.Keys
  {
    var n := |Statements(op)|;
    assert After(rows, op, 1) == RunStatement(rows, op, 0) by { assert After(rows, op, 0) == Done(rows); }
    if n == 2 && After(rows, op, 1).Done? {
      assert After(rows, op, 2) == RunStatement(After(rows, op, 1).rows, op, 1);
    }
  }

  lemma {:induction false} ReplayKeepsKeys(rows: Rows, h: seq<Op>)
    ensures Replay(rows, h).Keys == rows.Keys
  {
    if h != [] {
      ReplayKeepsKeys(rows, h[..|h| - 1]);
      ApplyKeepsKeys(Replay(rows, h[..|h| - 1]), h[|h| - 1]);
    }
  }

  const SUPPORTED: seq<string> := ["USD", "RUB", "EUR"]

  /** What GetBalances answers for a wallet: every row it has, and 0 for a supported currency without one. */
  function Balances(rows: Rows, wallet: int): map<string, int> {
    (map c | c in SUPPORTED :: 0)
    + (map k | k in rows && k.wallet == wallet :: k.currency := rows[k])
  }

  // ---------------------------------------------------------------- what each operation means

  /** A deposit is refused exactly when its row is missing; otherwise it rounds the sum into the row, if it fits. */
  lemma DepositAdds(rows: Rows, k: Key, a: real)
    ensures
      var o := Apply(rows, Deposit(k.wallet, k.currency, a));
      && (o.Refused? <==> k !in rows)
      && (o.Done? <==> k in rows && Fits(Round(rows[k] as real + a)))
      && (o.Done? ==> o.rows == rows[k := Round(rows[k] as real + a)])
  {
    var op := Deposit(k.wallet, k.currency, a);
    assert After(rows, op, 0) == Done(rows);
    assert Apply(rows, op) == RunStatement(rows, op, 0);
  }

  /** A withdrawal is refused exactly when its row is missing or holds less than the unrounded amount. */
  lemma WithdrawTakes(rows: Rows, k: Key, a: real)
    ensures
      var o := Apply(rows, Withdraw(k.wallet, k.currency, a));
      && (o.Refused? <==> k !in rows || rows[k] as real < a)
      && (o.Done? <==> k in rows && rows[k] as real >= a && Fits(Round(rows[k] as real - a)))
      && (o.Done? ==> o.rows == rows[k := Round(rows[k] as real - a)])
  {
    var op := Withdraw(k.wallet, k.currency, a);
    assert After(rows, op, 0) == Done(rows);
    assert Apply(rows, op) == RunStatement(rows, op, 0);
  }

  /**
   An exchange between different currencies takes the debit from one row, adds
   the credit to the other when that row exists, and touches nothing else.
   */
  lemma ExchangeMoves(rows: Rows, w: int, f: string, t: string, d: real, c: real)
    requires f != t
    ensures
      var o := Apply(rows, Exchange(w, f, t, d, c));
      var kf, kt := Key(w, f), Key(w, t);
      && (o.Refused? <==> kf !in rows || rows[kf] as real < d)
      && (o.Done? <==>
        && kf in rows && rows[kf] as real >= d && Fits(Round(rows[kf] as real - d))
        && (kt in rows ==> Fits(Round(rows[kt] as real + c))))
      && (o.Done? ==>
        o.rows == rows[kf := Round(rows[kf] as real - d)]
                    + (if kt in rows then map[kt := Round(rows[kt] as real + c)] else map[]))
  {
    var op := Exchange(w, f, t, d, c);
    assert After(rows, op, 0) == Done(rows);
    assert After(rows, op, 1) == RunStatement(rows, op, 0);
    if After(rows, op, 1).Done? {
      assert After(rows, op, 2) == RunStatement(After(rows, op, 1).rows, op, 1);
    } else {
      assert After(rows, op, 2) == After(rows, op, 1);
    }
  }

  /** What a key holds; nothing when its row is missing. */
  function Held(rows: Rows, k: Key): int {
    if k in rows then rows[k] else 0
  }

  /**
   The credit is not checked for having found its row.  After a committed exchange of any amount d
   for a credit of c hundredths, the debited row is down by d up to rounding, and what the two rows
   hold together has changed by the credit less what was taken exactly when the credited row
   exists (or there was nothing to credit); otherwise the debit commits alone.
   */
  lemma CreditLostExactlyWhenRowMissing(rows: Rows, w: int, f: string, t: string, d: real, c: int)
    requires f != t
    ensures
      var o := Apply(rows, Exchange(w, f, t, d, c as real));
      var kf, kt := Key(w, f), Key(w, t);
      o.Done? ==>
        var taken := Held(rows, kf) - Held(o.rows, kf);
        && -0.5 <= taken as real - d <= 0.5
        && (Held(o.rows, kf) + Held(o.rows, kt) == Held(rows, kf) + Held(rows, kt) - taken + c <==>
          kt in rows || c == 0)
        && (kt !in rows ==> o.rows == rows[kf := Held(rows, kf) - taken])
  {
    ExchangeMoves(rows, w, f, t, d, c as real);
    var kf, kt := Key(w, f), Key(w, t);
    if kt in rows {
      assert rows[kt] as real + c as real == (rows[kt] + c) as real;
      RoundWhole(rows[kt] + c);
    }
  }

  /** An exchange whose credit does not fit undoes its debit as well: it has no effect at all. */
  lemma OverflowingCreditUndoesDebit(rows: Rows, w: int, f: string, t: string, d: real, c: real)
    requires f != t && Key(w, f) in rows && Key(w, t) in rows
    requires rows[Key(w, f)] as real >= d && Fits(Round(rows[Key(w, f)] as real - d))
    requires !Fits(Round(rows[Key(w, t)] as real + c))
    ensures Replay(rows, [Exchange(w, f, t, d, c)]) == rows
  {
    var op := Exchange(w, f, t, d, c);
    assert After(rows, op, 0) == Done(rows);
    assert After(rows, op, 1) == RunStatement(rows, op, 0);
    assert After(rows, op, 2) == Overflowed;
    assert [op][..0] == [];
    assert Replay(rows, []) == rows;
  }

  // ---------------------------------------------------------------- range

  /** What the handlers let through: positive requests, and a credit computed from a non-negative rate. */
  predicate Sane(op: Op) {
    match op
    case Deposit(_, _, a) => a > 0.0
    case Withdraw(_, _, a) => a > 0.0
    case Exchange(_, _, _, d, c) => d > 0.0 && c >= 0.0
  }

  ghost predicate InRange(rows: Rows) {
    forall k :: k in rows ==> 0 <= rows[k] < LIMIT
  }

  lemma StatementKeepsRange(view: Rows, op: Op, i: nat)
    requires InRange(view) && Sane(op) && i < |Statements(op)|
    ensures RunStatement(view, op, i).Done? ==> InRange(RunStatement(view, op, i).rows)
  {
    var u := Statements(op)[i];
    if u.key in view && RunUpdate(view, u).Written? {
      assert view[u.key] as real + u.delta >= 0.0;
    }
  }

  lemma ApplyKeepsRange(rows: Rows, op: Op)
    requires InRange(rows) && Sane(op)
    ensures Apply(rows, op).Done? ==> InRange(Apply(rows, op).rows)
  {
    assert After(rows, op, 0) == Done(rows);
    StatementKeepsRange(rows, op, 0);
    assert After(rows, op, 1) == RunStatement(rows, op, 0);
    if |Statements(op)| == 2 && After(rows, op, 1).Done? {
      StatementKeepsRange(After(rows, op, 1).rows, op, 1);
      assert After(rows, op, 2) == RunStatement(After(rows, op, 1).rows, op, 1);
    }
  }

  /** Every balance any history can produce is between 0 and 10^16 units, although nothing in the table says so. */
  lemma {:induction false} ReplayKeepsRange(rows: Rows, h: seq<Op>)
    requires InRange(rows) && forall op :: op in h ==> Sane(op)
    ensures InRange(Replay(rows, h))
  {
    if h != [] {
      ReplayKeepsRange(rows, h[..|h| - 1]);
      assert h[|h| - 1] in h;
      ApplyKeepsRange(Replay(rows, h[..|h| - 1]), h[|h| - 1]);
    }
  }

  /**
   The non-negative rate is really needed.  An exchange keeps every in-range
   table in range exactly when its credit does not round below zero, or is so far
   below zero that it overflows even on the largest balance.
   */
  lemma CreditKeepsRangeExactly(w: int, f: string, t: string, d: real, c: real)
    requires f != t && 0.0 < d <= (LIMIT - 1) as real
    ensures
      (forall rows: Rows {:trigger InRange(rows)} :: InRange(rows) && Apply(rows, Exchange(w, f, t, d, c)).Done? ==>
        InRange(Apply(rows, Exchange(w, f, t, d, c)).rows))
      <==> (Round(c) >= 0 || Round((LIMIT - 1) as real + c) <= -LIMIT)
  {
    var op := Exchange(w, f, t, d, c);
    var kf, kt := Key(w, f), Key(w, t);
    if Round(c) >= 0 || Round((LIMIT - 1) as real + c) <= -LIMIT {
      forall rows: Rows | InRange(rows) && Apply(rows, op).Done? ensures InRange(Apply(rows, op).rows) {
        ExchangeMoves(rows, w, f, t, d, c);
        if kt in rows {
          RoundMonotone(c, rows[kt] as real + c);
          RoundMonotone(rows[kt] as real + c, (LIMIT - 1) as real + c);
          assert After(rows, op, 0) == Done(rows);
          assert After(rows, op, 1) == RunStatement(rows, op, 0);
          assert After(rows, op, 2) == RunStatement(After(rows, op, 1).rows, op, 1);
          assert Fits(Round(rows[kt] as real + c));
        }
      }
    } else {
      var v := if Round(c) > -LIMIT then 0 else LIMIT - 1;
      var rows := map[kf := LIMIT - 1, kt := v];
      assert v as real + c == c || v == LIMIT - 1;
      assert -LIMIT < Round(v as real + c) < 0;
      assert After(rows, op, 0) == Done(rows);
      assert After(rows, op, 1) == RunStatement(rows, op, 0);
      assert After(rows, op, 1).Done?;
      assert After(rows, op, 2) == RunStatement(After(rows, op, 1).rows, op, 1);
      assert Apply(rows, op).rows[kt] < 0;
      assert InRange(rows) && !InRange(Apply(rows, op).rows);
    }
  }

  // ---------------------------------------------------------------- drift

  /** The signed amount the statements ask to add to row k, and how many of them do. */
  function Asked(us: seq<Update>, k: Key): real {
    if us == [] then 0.0
    else Asked(us[..|us| - 1], k) + (if us[|us| - 1].key == k then us[|us| - 1].delta else 0.0)
  }

  function Touches(us: seq<Update>, k: Key): nat {
    if us == [] then 0
    else Touches(us[..|us| - 1], k) + (if us[|us| - 1].key == k then 1 else 0)
  }

  function AllStatements(h: seq<Op>): seq<Update> {
    if h == [] then [] else AllStatements(h[..|h| - 1]) + Statements(h[|h| - 1])
  }

  /** x is within n halves of y. */
  predicate Near(x: real, y: real, n: nat) {
    -(n as real) <= 2.0 * (x - y) <= n as real
  }

  lemma NearAdd(x: real, y: real, n: nat, delta: real, asked: real, m: nat, z: real)
    requires Near(x, y, n) && Near(z, x + asked, m)
    ensures Near(z, y + asked, n + m)
  {
    assert (n + m) as real == n as real + m as real;
  }

  /**
   The updates a view has been through since the operation started: half a hundredth of error each,
   none on whole amounts.
   */
  ghost predicate Tracks(before: Rows, view: Rows, us: seq<Update>, k: Key)
    requires k in before
  {
    && k in view
    && Near(view[k] as real, before[k] as real + Asked(us, k), Touches(us, k))
    && ((forall u :: u in us ==> u.delta == u.delta.Floor as real) ==>
      view[k] as real == before[k] as real + Asked(us, k))
  }

  lemma AskedAppend(us: seq<Update>, u: Update, k: Key)
    ensures Asked(us + [u], k) == Asked(us, k) + (if u.key == k then u.delta else 0.0)
    ensures Touches(us + [u], k) == Touches(us, k) + (if u.key == k then 1 else 0)
  {
    assert (us + [u])[..|us|] == us;
  }

  /** A statement that succeeds writes its row, if the row exists, and no other. */
  lemma DoneWrites(view: Rows, op: Op, i: nat)
    requires i < |Statements(op)| && RunStatement(view, op, i).Done?
    ensures
      var u := Statements(op)[i];
      RunStatement(view, op, i).rows
        == if u.key in view then view[u.key := Round(view[u.key] as real + u.delta)] else view
  {
  }

  lemma StatementDrift(before: Rows, view: Rows, us: seq<Update>, op: Op, i: nat, k: Key)
    requires k in before && Tracks(before, view, us, k) && i < |Statements(op)|
    requires RunStatement(view, op, i).Done?
    ensures Tracks(before, RunStatement(view, op, i).rows, us + [Statements(op)[i]], k)
  {
    hide Asked, Touches, Statements, RunUpdate, RunStatement;
    DoneWrites(view, op, i);
    var u := Statements(op)[i];
    var vs := us + [u];
    AskedAppend(us, u, k);
    var after := RunStatement(view, op, i).rows;
    if u.key == k {
      assert after[k] == Round(view[k] as real + u.delta);
      NearAdd(view[k] as real, before[k] as real + Asked(us, k), Touches(us, k), u.delta, u.delta, 1, after[k] as real);
      if forall v :: v in vs ==> v.delta == v.delta.Floor as real {
        assert u in vs && forall v :: v in us ==> v in vs;
        assert view[k] as real + u.delta == (view[k] + u.delta.Floor) as real;
        RoundWhole(view[k] + u.delta.Floor);
      }
    } else {
      assert forall v :: v in us ==> v in vs;
      assert after[k] == view[k];
    }
  }

  lemma OperationDrift(before: Rows, mid: Rows, us: seq<Update>, op: Op, i: nat, k: Key)
    requires k in before && Tracks(before, mid, us, k) && i <= |Statements(op)|
    requires After(mid, op, i).Done?
    ensures Tracks(before, After(mid, op, i).rows, us + Statements(op)[..i], k)
  {
    if i == 0 {
      assert us + Statements(op)[..0] == us;
    } else {
      OperationDrift(before, mid, us, op, i - 1, k);
      StatementDrift(before, After(mid, op, i - 1).rows, us + Statements(op)[..i - 1], op, i - 1, k);
      assert us + Statements(op)[..i] == us + Statements(op)[..i - 1] + [Statements(op)[i - 1]];
    }
  }

  lemma {:induction false} HistoryTracks(rows: Rows, h: seq<Op>, k: Key)
    requires k in rows && AllCommit(rows, h)
    ensures Tracks(rows, Replay(rows, h), AllStatements(h), k)
  {
    if h != [] {
      var g, op := h[..|h| - 1], h[|h| - 1];
      assert AllCommit(rows, g) by {
        forall n: nat | n < |g| ensures Apply(Replay(rows, g[..n]), g[n]).Done? {
          assert g[..n] == h[..n] && g[n] == h[n];
        }
      }
      HistoryTracks(rows, g, k);
      OperationDrift(rows, Replay(rows, g), AllStatements(g), op, |Statements(op)|, k);
      assert Statements(op)[..|Statements(op)|] == Statements(op);
    }
  }

  /** What an operation asks to add to row k, in the request's own terms. */
  function Requested(op: Op, k: Key): real {
    match op
    case Deposit(w, c, a) => if k == Key(w, c) then a else 0.0
    case Withdraw(w, c, a) => if k == Key(w, c) then -a else 0.0
    case Exchange(w, f, t, d, c) => (if k == Key(w, t) then c else 0.0) - (if k == Key(w, f) then d else 0.0)
  }

  /** How many of its statements update row k. */
  function Updates(op: Op, k: Key): nat {
    match op
    case Deposit(w, c, _) => if k == Key(w, c) then 1 else 0
    case Withdraw(w, c, _) => if k == Key(w, c) then 1 else 0
    case Exchange(w, f, t, _, _) => (if k == Key(w, t) then 1 else 0) + (if k == Key(w, f) then 1 else 0)
  }

  function TotalRequested(h: seq<Op>, k: Key): real {
    if h == [] then 0.0 else TotalRequested(h[..|h| - 1], k) + Requested(h[|h| - 1], k)
  }

  function TotalUpdates(h: seq<Op>, k: Key): nat {
    if h == [] then 0 else TotalUpdates(h[..|h| - 1], k) + Updates(h[|h| - 1], k)
  }

  predicate WholeCents(op: Op) {
    match op
    case Deposit(_, _, a) => a == a.Floor as real
    case Withdraw(_, _, a) => a == a.Floor as real
    case Exchange(_, _, _, d, c) => d == d.Floor as real && c == c.Floor as real
  }

  lemma {:induction false} AskedConcat(us: seq<Update>, vs: seq<Update>, k: Key)
    ensures Asked(us + vs, k) == Asked(us, k) + Asked(vs, k)
    ensures Touches(us + vs, k) == Touches(us, k) + Touches(vs, k)
  {
    if vs == [] {
      assert us + vs == us;
    } else {
      assert (us + vs)[..|us + vs| - 1] == us + vs[..|vs| - 1];
      AskedConcat(us, vs[..|vs| - 1], k);
    }
  }

  /** The statements of an operation ask for what the request asked for. */
  lemma StatementsAskTheRequest(op: Op, k: Key)
    ensures Asked(Statements(op), k) == Requested(op, k)
    ensures Touches(Statements(op), k) == Updates(op, k)
  {
    var us := Statements(op);
    var first := us[0];
    assert [first][..0] == [];
    assert Asked([first], k) == (if first.key == k then first.delta else 0.0);
    assert Touches([first], k) == (if first.key == k then 1 else 0);
    if |us| == 1 {
      assert us == [first];
    } else {
      assert us[..1] == [first];
    }
  }

  lemma {:induction false} HistoryAsksTheRequests(h: seq<Op>, k: Key)
    ensures Asked(AllStatements(h), k) == TotalRequested(h, k)
    ensures Touches(AllStatements(h), k) == TotalUpdates(h, k)
    ensures (forall op :: op in h ==> WholeCents(op)) ==>
      forall u :: u in AllStatements(h) ==> u.delta == u.delta.Floor as real
  {
    if h != [] {
      HistoryAsksTheRequests(h[..|h| - 1], k);
      StatementsAskTheRequest(h[|h| - 1], k);
      AskedConcat(AllStatements(h[..|h| - 1]), Statements(h[|h| - 1]), k);
      if forall op :: op in h ==> WholeCents(op) {
        assert h[|h| - 1] in h;
        WholeStatements(h[|h| - 1]);
      }
    }
  }

  lemma NegatedWhole(x: real)
    requires x == x.Floor as real
    ensures -x == (-x).Floor as real
  {
    assert -x == (-(x.Floor)) as real;
  }

  lemma WholeStatements(op: Op)
    requires WholeCents(op)
    ensures forall u :: u in Statements(op) ==> u.delta == u.delta.Floor as real
  {
    match op
    case Deposit(_, _, _) =>
    case Withdraw(_, _, a) => NegatedWhole(a);
    case Exchange(_, _, _, d, _) => NegatedWhole(d);
  }

  /**
   After any committed history the stored balance differs from the exact sum of
   the requested amounts by at most half a hundredth per update of the row, and by
   nothing when every requested amount is a whole number of hundredths.
   */
  lemma DriftBound(rows: Rows, h: seq<Op>, k: Key)
    requires k in rows && AllCommit(rows, h)
    ensures k in Replay(rows, h)
    ensures Near(Replay(rows, h)[k] as real, rows[k] as real + TotalRequested(h, k), TotalUpdates(h, k))
    ensures (forall op :: op in h ==> WholeCents(op)) ==>
      Replay(rows, h)[k] as real == rows[k] as real + TotalRequested(h, k)
  {
    HistoryTracks(rows, h, k);
    HistoryAsksTheRequests(h, k);
  }

  function Copies(op: Op, n: nat): (h: seq<Op>)
    ensures |h| == n && forall o :: o in h ==> o == op
  {
    if n == 0 then [] else Copies(op, n - 1) + [op]
  }

  /** The bound is attained: n deposits of half a hundredth store n hundredths where n/2 were asked for. */
  lemma DriftIsAttained(k: Key, n: nat)
    requires n < LIMIT
    ensures
      var h := Copies(Deposit(k.wallet, k.currency, 0.5), n);
      && AllCommit(map[k := 0], h)
      && Replay(map[k := 0], h) == map[k := n]
      && TotalUpdates(h, k) == n
      && TotalRequested(h, k) == n as real / 2.0
  {
    HalfDepositsAsk(k, n);
    HalfDepositsStore(k, n);
  }

  lemma {:induction false} HalfDepositsAsk(k: Key, n: nat)
    ensures
      var h := Copies(Deposit(k.wallet, k.currency, 0.5), n);
      TotalUpdates(h, k) == n && TotalRequested(h, k) == n as real / 2.0
  {
    var op := Deposit(k.wallet, k.currency, 0.5);
    if n > 0 {
      HalfDepositsAsk(k, n - 1);
      assert Copies(op, n)[..n - 1] == Copies(op, n - 1);
    }
  }

  lemma {:induction false} HalfDepositsStore(k: Key, n: nat)
    requires n < LIMIT
    ensures
      var h := Copies(Deposit(k.wallet, k.currency, 0.5), n);
      AllCommit(map[k := 0], h) && Replay(map[k := 0], h) == map[k := n]
  {
    hide AllCommit, Replay, Apply;
    if n == 0 {
      NothingReplayed(map[k := 0]);
    } else {
      HalfDepositsStore(k, n - 1);
      HalfDeposit(k, n - 1);
      OneMore(map[k := 0], Copies(Deposit(k.wallet, k.currency, 0.5), n - 1), Deposit(k.wallet, k.currency, 0.5),
        map[k := n]);
    }
  }

  lemma NothingReplayed(rows: Rows)
    ensures AllCommit(rows, []) && Replay(rows, []) == rows
  {
  }

  lemma OneMore(rows: Rows, g: seq<Op>, op: Op, after: Rows)
    requires AllCommit(rows, g) && Apply(Replay(rows, g), op) == Done(after)
    ensures AllCommit(rows, g + [op]) && Replay(rows, g + [op]) == after
  {
    ReplayExtend(rows, g, op);
  }

  lemma HalfDeposit(k: Key, v: nat)
    requires v + 1 < LIMIT
    ensures Apply(map[k := v], Deposit(k.wallet, k.currency, 0.5)) == Done(map[k := v + 1])
  {
    var op := Deposit(k.wallet, k.currency, 0.5);
    assert After(map[k := v], op, 0) == Done(map[k := v]);
    assert Round(v as real + 0.5) == v + 1;
    assert map[k := v][k := v + 1] == map[k := v + 1];
    assert RunStatement(map[k := v], op, 0) == Done(map[k := v + 1]);
  }
}
