/**
 The wallet's repository as it runs: the balances table is updated in place, one
 statement or one transaction at a time, with requests that may fail, or fail after
 having been applied.  Every method is proved against the operations of Ledger.
 */
module AuthRepo {
  import opened Common
  import opened Money
  import C = LedgerConcurrency
  import L = Ledger

  type Key = L.Key
  type Rows = L.Rows

  datatype Result<T> = Value(value: T) | NotFound | InsufficientFunds | Failure

  /** What the database does with the requests of one Exchange. */
  datatype ExchangeEnv = ExchangeEnv(begin: bool, debit: bool, credit: bool, commit: IO, read: bool)

  /** The table after an operation whose request was applied. */
  function Applied(rows: Rows, op: L.Op): Rows {
    match L.Apply(rows, op)
    case Done(after) => after
    case Refused => rows
    case Overflowed => rows
  }

  lemma DepositOutcome(rows: Rows, k: Key, a: real)
    ensures L.Apply(rows, L.Deposit(k.wallet, k.currency, a)) ==
      if k !in rows then L.Refused
      else if Fits(Round(rows[k] as real + a)) then L.Done(rows[k := Round(rows[k] as real + a)])
      else L.Overflowed
  {
    L.DepositAdds(rows, k, a);
  }

  lemma WithdrawOutcome(rows: Rows, k: Key, a: real)
    ensures L.Apply(rows, L.Withdraw(k.wallet, k.currency, a)) ==
      if k !in rows || rows[k] as real < a then L.Refused
      else if Fits(Round(rows[k] as real - a)) then L.Done(rows[k := Round(rows[k] as real - a)])
      else L.Overflowed
  {
    L.WithdrawTakes(rows, k, a);
  }

  lemma ExchangeOutcome(rows: Rows, w: int, f: string, t: string, d: real, c: real)
    ensures
      var o := L.Apply(rows, L.Exchange(w, f, t, d, c));
      o == match L.RunUpdate(rows, L.Update(L.Key(w, f), -d, Some(d)))
        case NoRow => L.Refused
        case OutOfRange => L.Overflowed
        case Written(n) =>
          (var view := rows[L.Key(w, f) := n];
           match L.RunUpdate(view, L.Update(L.Key(w, t), c, None))
           case NoRow => L.Done(view)
           case OutOfRange => L.Overflowed
           case Written(m) => L.Done(view[L.Key(w, t) := m]))
  {
    var op := L.Exchange(w, f, t, d, c);
    assert L.After(rows, op, 0) == L.Done(rows);
    assert L.After(rows, op, 1) == L.RunStatement(rows, op, 0);
    if L.After(rows, op, 1).Done? {
      assert L.After(rows, op, 2) == L.RunStatement(L.After(rows, op, 1).rows, op, 1);
    } else {
      assert L.After(rows, op, 2) == L.After(rows, op, 1);
    }
  }

  /** A wallet has a row in each supported currency. */
  predicate FullyRegistered(rows: Rows, wallet: int) {
    forall c :: c in L.SUPPORTED ==> L.Key(wallet, c) in rows
  }

  /** The table with empty rows added for the first n supported currencies. */
  function WithRows(rows: Rows, wallet: int, n: nat): Rows
    requires n <= |L.SUPPORTED|
  {
    if n == 0 then rows else WithRows(rows, wallet, n - 1)[L.Key(wallet, L.SUPPORTED[n - 1]) := 0]
  }

  lemma {:induction false} WithRowsAt(rows: Rows, wallet: int, n: nat, k: Key)
    requires n <= |L.SUPPORTED|
    ensures
      var added := exists i :: 0 <= i < n && k == L.Key(wallet, L.SUPPORTED[i]);
      && (k in WithRows(rows, wallet, n) <==> k in rows || added)
      && (k in WithRows(rows, wallet, n) ==> WithRows(rows, wallet, n)[k] == if added then 0 else rows[k])
  {
    if n > 0 {
      WithRowsAt(rows, wallet, n - 1, k);
    }
  }

  lemma SupportedDiffer(i: nat, j: nat)
    requires i < |L.SUPPORTED| && j < |L.SUPPORTED| && L.SUPPORTED[i] == L.SUPPORTED[j]
    ensures i == j
  {
    assert L.SUPPORTED[0][0] == 'U' && L.SUPPORTED[1][0] == 'R' && L.SUPPORTED[2][0] == 'E';
  }

  /** What the answer says about a currency once the rows not in left have been read. */
  ghost predicate Filled(rows: Rows, wallet: int, left: set<Key>, out: map<string, int>, c: string) {
    var k := L.Key(wallet, c);
    var seen := k in rows && k !in left;
    (c in out <==> c in L.SUPPORTED || seen) && (c in out ==> out[c] == if seen then rows[k] else 0)
  }

  lemma FillStep(rows: Rows, wallet: int, left: set<Key>, out: map<string, int>, k: Key, left': set<Key>,
      out': map<string, int>)
    requires k in left && k in rows && k.wallet == wallet && forall c :: Filled(rows, wallet, left, out, c)
    requires left' == left - {k} && out' == out[k.currency := rows[k]]
    ensures forall c :: Filled(rows, wallet, left', out', c)
  {
    forall c ensures Filled(rows, wallet, left', out', c) {
      assert Filled(rows, wallet, left, out, c);
      assert k == L.Key(wallet, k.currency);
    }
  }

  lemma SameAnswer(rows: Rows, wallet: int, out: map<string, int>)
    requires forall c :: Filled(rows, wallet, {}, out, c)
    ensures out == L.Balances(rows, wallet)
  {
    var b := L.Balances(rows, wallet);
    forall c ensures c in b <==> c in L.SUPPORTED || L.Key(wallet, c) in rows
      ensures c in b ==> b[c] == if L.Key(wallet, c) in rows then rows[L.Key(wallet, c)] else 0
    {
      BalancesAt(rows, wallet, c);
    }
    forall c ensures c in out <==> c in b
      ensures c in out ==> out[c] == b[c]
    {
      assert Filled(rows, wallet, {}, out, c);
    }
  }

  /** The answer for one currency: its row if the wallet has one, else 0 if it is supported. */
  lemma BalancesAt(rows: Rows, wallet: int, c: string)
    ensures
      var b, k := L.Balances(rows, wallet), L.Key(wallet, c);
      && (c in b <==> c in L.SUPPORTED || k in rows)
      && (c in b ==> b[c] == if k in rows then rows[k] else 0)
  {
    var mine := map k | k in rows && k.wallet == wallet :: k.currency := rows[k];
    if L.Key(wallet, c) in rows {
      assert L.Key(wallet, c).currency == c;
      assert c in mine;
    }
  }

  class Repo {
    var balances: Rows
    // user id to wallet id, one wallet per user.
    const wallets: map<int, int>

    constructor (balances: Rows, wallets: map<int, int>)
      ensures this.balances == balances && this.wallets == wallets
    {
      this.balances, this.wallets := balances, wallets;
    }

    method GetWalletIDByUserID(user: int, ok: bool) returns (r: Result<int>)
      ensures r == if !ok then Failure else if user in wallets then Value(wallets[user]) else NotFound
    {
      if !ok { return Failure; }
      if user !in wallets { return NotFound; }
      r := Value(wallets[user]);
    }

    /** Every supported currency is in the answer, at 0 unless the wallet has a row for it. */
    method GetBalances(wallet: int, ok: bool) returns (r: Result<map<string, int>>)
      ensures r == if ok then Value(L.Balances(balances, wallet)) else Failure
    {
      if !ok { return Failure; }
      var out: map<string, int> := map[];
      for i := 0 to |L.SUPPORTED|
        invariant forall c :: c in out <==> c in L.SUPPORTED[..i]
        invariant forall c :: c in out ==> out[c] == 0
      {
        out := out[L.SUPPORTED[i] := 0];
      }
      var left := set k | k in balances && k.wallet == wallet;
      while left != {}
        invariant forall k :: k in left ==> k in balances && k.wallet == wallet
        invariant forall c :: Filled(balances, wallet, left, out, c)
        decreases |left|
      {
        var k :| k in left;
        FillStep(balances, wallet, left, out, k, left - {k}, out[k.currency := balances[k]]);
        out := out[k.currency := balances[k]];
        left := left - {k};
      }
      SameAnswer(balances, wallet, out);
      r := Value(out);
    }

    /** One guarded UPDATE, on its own. */
    method Deposit(wallet: int, currency: string, amount: real, io: IO) returns (r: Result<int>)
      modifies this
      ensures balances == if io.Failed? then old(balances)
        else Applied(old(balances), L.Deposit(wallet, currency, amount))
      ensures
        var o := L.Apply(old(balances), L.Deposit(wallet, currency, amount));
        && (r.Value? <==> io.Ok? && o.Done?) && (r.NotFound? <==> io.Ok? && o.Refused?) && !r.InsufficientFunds?
        && (r.Value? ==> L.Key(wallet, currency) in balances && r.value == balances[L.Key(wallet, currency)])
    {
      var k := L.Key(wallet, currency);
      DepositOutcome(balances, k, amount);
      r := Failure;
      if io.Failed? { return; }
      if k !in balances {
        if io.Ok? { r := NotFound; }
        return;
      }
      var n := Round(balances[k] as real + amount);
      if !Fits(n) { return; }
      balances := balances[k := n];
      if io.Ok? { r := Value(n); }
    }

    method Withdraw(wallet: int, currency: string, amount: real, io: IO) returns (r: Result<int>)
      modifies this
      ensures balances == if io.Failed? then old(balances)
        else Applied(old(balances), L.Withdraw(wallet, currency, amount))
      ensures
        var o := L.Apply(old(balances), L.Withdraw(wallet, currency, amount));
        && (r.Value? <==> io.Ok? && o.Done?) && (r.InsufficientFunds? <==> io.Ok? && o.Refused?) && !r.NotFound?
        && (r.Value? ==> L.Key(wallet, currency) in balances && r.value == balances[L.Key(wallet, currency)])
    {
      var k := L.Key(wallet, currency);
      WithdrawOutcome(balances, k, amount);
      r := Failure;
      if io.Failed? { return; }
      if k !in balances || !(balances[k] as real >= amount) {
        if io.Ok? { r := InsufficientFunds; }
        return;
      }
      var n := Round(balances[k] as real - amount);
      if !Fits(n) { return; }
      balances := balances[k := n];
      if io.Ok? { r := Value(n); }
    }

    /**
     A transaction of two UPDATEs: on any failure before the commit nothing remains of it.
     The answer is right about the money when it is a balance or "insufficient funds"; after
     any other error the exchange may have been committed or not.
     */
    method Exchange(wallet: int, from: string, to: string, debit: real, credit: real, env: ExchangeEnv)
      returns (r: Result<map<string, int>>)
      modifies this
      ensures balances == if env.begin && env.debit && env.credit && !env.commit.Failed?
        then Applied(old(balances), L.Exchange(wallet, from, to, debit, credit)) else old(balances)
      ensures
        var o := L.Apply(old(balances), L.Exchange(wallet, from, to, debit, credit));
        && (r.Value? <==> env.begin && env.debit && env.credit && env.commit.Ok? && env.read && o.Done?)
        && (r.Value? ==> balances == o.rows && r.value == L.Balances(balances, wallet))
        && (r.InsufficientFunds? <==> env.begin && env.debit && o.Refused?)
        && (r.InsufficientFunds? ==> balances == old(balances)) && !r.NotFound?
    {
      ExchangeOutcome(balances, wallet, from, to, debit, credit);
      r := Failure;
      if !env.begin { return; }
      var view := balances;
      if !env.debit { return; }
      match L.RunUpdate(view, L.Update(L.Key(wallet, from), -debit, Some(debit))) {
        case OutOfRange => return;
        case NoRow => return InsufficientFunds;
        case Written(n) => view := view[L.Key(wallet, from) := n];
      }
      if !env.credit { return; }
      // The number of rows changed is not looked at here.
      match L.RunUpdate(view, L.Update(L.Key(wallet, to), credit, None)) {
        case OutOfRange => return;
        case NoRow =>
        case Written(m) => view := view[L.Key(wallet, to) := m];
      }
      if env.commit.Failed? { return; }
      balances := view;
      if env.commit.FailedButApplied? { return; }
      r := GetBalances(wallet, env.read);
    }

    /** Three separate inserts; the first failure leaves the rows before it in place. */
    method CreateBalancesForWallet(wallet: int, ios: seq<IO>) returns (ok: bool)
      requires |ios| == |L.SUPPORTED|
      modifies this
      ensures ok <==>
        && (forall i :: 0 <= i < |ios| ==> ios[i].Ok?)
        && (forall c :: c in L.SUPPORTED ==> L.Key(wallet, c) !in old(balances))
      ensures ok ==>
        && FullyRegistered(balances, wallet)
        && forall c :: c in L.SUPPORTED ==> balances[L.Key(wallet, c)] == 0
      // f is the first insert that fails: the rows before it stay, and its own if it was applied all the same.
      ensures forall f: nat ::
        f < |L.SUPPORTED| && (!ios[f].Ok? || L.Key(wallet, L.SUPPORTED[f]) in old(balances)) ==>
        (forall j :: 0 <= j < f ==> ios[j].Ok? && L.Key(wallet, L.SUPPORTED[j]) !in old(balances)) ==>
        balances == WithRows(old(balances), wallet,
          if ios[f].FailedButApplied? && L.Key(wallet, L.SUPPORTED[f]) !in old(balances) then f + 1 else f)
      ensures forall k :: k in old(balances) ==> k in balances && balances[k] == old(balances)[k]
    {
      ghost var was := balances;
      ok := true;
      assert balances == WithRows(was, wallet, 0);
      for i := 0 to |L.SUPPORTED|
        invariant ok && balances == WithRows(was, wallet, i)
        invariant forall j :: 0 <= j < i ==> ios[j].Ok? && L.Key(wallet, L.SUPPORTED[j]) !in was
      {
        var k := L.Key(wallet, L.SUPPORTED[i]);
        Earlier(was, wallet, i);
        if k in balances {
          assert L.SUPPORTED[i] in L.SUPPORTED;
          KeepsOld(was, wallet, i);
          return false;
        }
        if !ios[i].Failed? {
          balances := balances[k := 0];
        }
        if !ios[i].Ok? {
          assert balances == WithRows(was, wallet, if ios[i].Failed? then i else i + 1);
          KeepsOld(was, wallet, i);
          return false;
        }
      }
      KeepsOld(was, wallet, |L.SUPPORTED|);
      forall c | c in L.SUPPORTED ensures L.Key(wallet, c) in balances && balances[L.Key(wallet, c)] == 0 {
        WithRowsAt(was, wallet, |L.SUPPORTED|, L.Key(wallet, c));
      }
    }
  }

  lemma Earlier(rows: Rows, wallet: int, i: nat)
    requires i < |L.SUPPORTED|
    ensures L.Key(wallet, L.SUPPORTED[i]) in WithRows(rows, wallet, i) <==> L.Key(wallet, L.SUPPORTED[i]) in rows
  {
    var k := L.Key(wallet, L.SUPPORTED[i]);
    WithRowsAt(rows, wallet, i, k);
    if j :| 0 <= j < i && k == L.Key(wallet, L.SUPPORTED[j]) {
      SupportedDiffer(i, j);
    }
  }

  /** As long as the rows to be added were not there, adding them changes no other row. */
  lemma KeepsOld(rows: Rows, wallet: int, n: nat)
    requires n <= |L.SUPPORTED| && forall j :: 0 <= j < n ==> L.Key(wallet, L.SUPPORTED[j]) !in rows
    ensures forall k :: k in rows ==> k in WithRows(rows, wallet, n) && WithRows(rows, wallet, n)[k] == rows[k]
  {
    forall k | k in rows ensures k in WithRows(rows, wallet, n) && WithRows(rows, wallet, n)[k] == rows[k] {
      WithRowsAt(rows, wallet, n, k);
    }
  }

  // ---------------------------------------------------------------- one call is one transaction

  function Executes(t: nat, n: nat): (acts: seq<C.Action>)
    ensures |acts| == n
  {
    if n == 0 then [] else Executes(t, n - 1) + [C.Execute(t)]
  }

  /**
   After i statements of a transaction that runs alone: its view is what the operation's statements
   make of the table.
   */
  ghost predicate AloneAfter(s: C.DB, op: L.Op, i: nat, now: C.DB)
    requires i <= |L.Statements(op)|
  {
    && now.committed == s.committed && now.order == s.order
    && match L.After(s.committed, op, i)
       case Done(view) => exists p :: now.txs == map[|s.begun| := C.Tx(op, i, p)] && s.committed + p == view
       case Refused => now.txs == map[]
       case Overflowed => now.txs == map[]
  }

  lemma {:induction false} RunsAlone(s: C.DB, op: L.Op, i: nat)
    requires s.txs == map[] && i <= |L.Statements(op)|
    ensures AloneAfter(s, op, i, C.Exec(C.Step(s, C.Begin(op)), Executes(|s.begun|, i)))
  {
    hide L.RunUpdate, L.Statements;
    var begun, t := C.Step(s, C.Begin(op)), |s.begun|;
    if i == 0 {
      assert s.committed + map[] == s.committed;
      assert begun.txs == map[t := C.Tx(op, 0, map[])];
    } else {
      RunsAlone(s, op, i - 1);
      var acts := Executes(t, i);
      assert acts[..i - 1] == Executes(t, i - 1) && acts[i - 1] == C.Execute(t);
      OneExecute(s, op, i - 1, C.Exec(begun, acts[..i - 1]));
    }
  }

  lemma OneExecute(s: C.DB, op: L.Op, i: nat, now: C.DB)
    requires i < |L.Statements(op)| && AloneAfter(s, op, i, now)
    ensures AloneAfter(s, op, i + 1, C.Step(now, C.Execute(|s.begun|)))
  {
    hide L.RunUpdate, L.Statements, L.RunStatement, C.ExecuteStatement;
    var t := |s.begun|;
    if L.After(s.committed, op, i).Done? {
      var p :| now.txs == map[t := C.Tx(op, i, p)] && s.committed + p == L.After(s.committed, op, i).rows;
      AloneStatement(s.committed, op, i, now, t, p);
    }
  }

  lemma AloneStatement(rows: Rows, op: L.Op, i: nat, now: C.DB, t: nat, p: Rows)
    requires i < |L.Statements(op)| && now.txs == map[t := C.Tx(op, i, p)] && now.committed == rows
    ensures
      var next := C.Step(now, C.Execute(t));
      && next.committed == rows && next.order == now.order
      && match L.RunStatement(rows + p, op, i)
         case Done(view) => exists p' :: next.txs == map[t := C.Tx(op, i + 1, p')] && rows + p' == view
         case Refused => next.txs == map[]
         case Overflowed => next.txs == map[]
  {
    hide L.RunUpdate, L.Statements, L.After, L.MustHit;
    var u := L.Statements(op)[i];
    var next := C.Step(now, C.Execute(t));
    assert next == C.ExecuteStatement(now, t);
    assert !C.LockedByOther(now, t, u.key);
    assert now.txs - {t} == map[];
    match L.RunUpdate(rows + p, u)
    case NoRow =>
      if !L.MustHit(op, i) { assert next.txs == map[t := C.Tx(op, i + 1, p)]; }
    case OutOfRange =>
    case Written(n) =>
      assert next.txs == map[t := C.Tx(op, i + 1, p[u.key := n])];
      assert rows + p[u.key := n] == (rows + p)[u.key := n];
  }

  /**
   A call that finds no other transaction running is a transaction of the concurrent ledger: it
   leaves the table Applied says.
   */
  lemma CallIsTransaction(s: C.DB, op: L.Op)
    requires s.txs == map[]
    ensures
      var now := C.Exec(C.Step(s, C.Begin(op)), Executes(|s.begun|, |L.Statements(op)|) + [C.Commit(|s.begun|)]);
      now.txs == map[] && now.committed == Applied(s.committed, op)
  {
    hide L.Statements, L.After, C.Exec;
    var n, t := |L.Statements(op)|, |s.begun|;
    RunsAlone(s, op, n);
    var begun := C.Step(s, C.Begin(op));
    var last := C.Exec(begun, Executes(t, n));
    ExecLast(begun, Executes(t, n), C.Commit(t));
    if L.Apply(s.committed, op).Done? {
      var p :| last.txs == map[t := C.Tx(op, n, p)] && s.committed + p == L.After(s.committed, op, n).rows;
      assert C.Step(last, C.Commit(t)).txs == map[];
    } else {
      assert C.Step(last, C.Commit(t)) == last;
    }
  }

  lemma ExecLast(s: C.DB, acts: seq<C.Action>, a: C.Action)
    ensures C.Exec(s, acts + [a]) == C.Step(C.Exec(s, acts), a)
  {
    assert (acts + [a])[..|acts|] == acts;
  }
}
