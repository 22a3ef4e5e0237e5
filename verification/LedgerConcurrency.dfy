/**
 Any number of ledger transactions interleaved statement by statement.  An UPDATE
 sees the committed rows and its own writes; it waits while another transaction has
 written the row, and a guard that already fails on the committed value refuses
 without waiting.  A transaction can be aborted at any moment (deadlock, overflow,
 lost connection); aborting leaves nothing behind.
 */
module LedgerConcurrency {
  import opened Common
  import opened Money
  import opened Ledger

  /** A running transaction: the statements it has executed and the rows it has written and locked. */
  datatype Tx = Tx(op: Op, next: nat, pending: Rows)

  /**
   An "insufficient funds" or "not found" answer to transaction t, and how many operations had
   committed when it was given.
   */
  datatype Refusal = Refusal(t: nat, op: Op, at: nat)

  /** The amount a deposit or withdrawal returned, and how many operations had committed with it. */
  datatype Receipt = Receipt(t: nat, amount: int, at: nat)

  /** A GetBalances answer, and how many operations had committed when its snapshot was taken. */
  datatype Reading = Reading(wallet: int, seen: map<string, int>, at: nat)

  /** order lists the transactions in the order they committed; begun[t] is the operation of transaction t. */
  datatype DB = DB(
    committed: Rows,
    begun: seq<Op>,
    txs: map<nat, Tx>,
    order: seq<nat>,
    refusals: seq<Refusal>,
    receipts: seq<Receipt>,
    readings: seq<Reading>)
  {
    ghost predicate WellOrdered() {
      && (forall i :: 0 <= i < |order| ==> order[i] < |begun| && order[i] !in txs)
      && (forall i, j :: 0 <= i < j < |order| ==> order[i] != order[j])
      && (forall t :: t in txs ==> t < |begun| && txs[t].op == begun[t])
    }

    /** The committed operations in commit order. */
    function History(): (h: seq<Op>)
      requires forall i :: 0 <= i < |order| ==> order[i] < |begun|
      ensures |h| == |order| && forall i :: 0 <= i < |h| ==> h[i] == begun[order[i]]
    {
      seq(|order|, i requires 0 <= i < |order| => begun[order[i]])
    }
  }

  datatype Action = Begin(op: Op) | Execute(t: nat) | Commit(t: nat) | Abort(t: nat) | Read(wallet: int)

  ghost predicate LockedByOther(s: DB, t: nat, k: Key) {
    exists other :: other in s.txs && other != t && k in s.txs[other].pending
  }

  ghost function ExecuteStatement(s: DB, t: nat): DB
    requires t in s.txs && s.txs[t].next < |Statements(s.txs[t].op)|
  {
    var tx := s.txs[t];
    var u := Statements(tx.op)[tx.next];
    match RunUpdate(s.committed + tx.pending, u)
    case NoRow =>
      if MustHit(tx.op, tx.next)
      then s.(txs := s.txs - {t}, refusals := s.refusals + [Refusal(t, tx.op, |s.order|)])
      else s.(txs := s.txs[t := tx.(next := tx.next + 1)])
    case OutOfRange => s.(txs := s.txs - {t})
    case Written(n) =>
      if LockedByOther(s, t, u.key) then s
      else s.(txs := s.txs[t := Tx(tx.op, tx.next + 1, tx.pending[u.key := n])])
  }

  /** UPDATE ... RETURNING amount answers with the value written; an exchange returns nothing of the kind. */
  function ReceiptOf(s: DB, t: nat): seq<Receipt>
    requires t in s.txs
  {
    var tx := s.txs[t];
    var k := Statements(tx.op)[0].key;
    if !tx.op.Exchange? && k in tx.pending then [Receipt(t, tx.pending[k], |s.order| + 1)] else []
  }

  /** One step; an action that is not possible changes nothing. */
  ghost function Step(s: DB, a: Action): DB {
    match a
    case Begin(op) =>
      s.(begun := s.begun + [op], txs := s.txs[|s.begun| := Tx(op, 0, map[])])
    case Execute(t) =>
      if t in s.txs && s.txs[t].next < |Statements(s.txs[t].op)| then ExecuteStatement(s, t) else s
    case Commit(t) =>
      if t in s.txs && s.txs[t].next == |Statements(s.txs[t].op)|
      then s.(committed := s.committed + s.txs[t].pending, txs := s.txs - {t}, order := s.order + [t],
        receipts := s.receipts + ReceiptOf(s, t))
      else s
    case Abort(t) => s.(txs := s.txs - {t})
    case Read(w) => s.(readings := s.readings + [Reading(w, Balances(s.committed, w), |s.order|)])
  }

  ghost function Exec(s: DB, acts: seq<Action>): DB {
    if acts == [] then s else Step(Exec(s, acts[..|acts| - 1]), acts[|acts| - 1])
  }

  ghost function Start(rows: Rows): DB {
    DB(rows, [], map[], [], [], [], [])
  }

  /** A statement waits exactly when it would write a row that another running transaction has written. */
  lemma WaitsExactly(s: DB, t: nat)
    requires t in s.txs && s.txs[t].next < |Statements(s.txs[t].op)|
    ensures
      var u := Statements(s.txs[t].op)[s.txs[t].next];
      Step(s, Execute(t)) == s <==>
        && RunUpdate(s.committed + s.txs[t].pending, u).Written?
        && exists other :: other in s.txs && other != t && u.key in s.txs[other].pending
  {
    hide RunUpdate, Statements;
    var s' := Step(s, Execute(t));
    assert s' != s ==> t !in s'.txs || s'.txs[t].next == s.txs[t].next + 1;
  }

  /** A transaction ends in one of four ways, and a commit or a refusal is recorded; every reading is answered. */
  lemma EndsAreRecorded(s: DB, a: Action, t: nat)
    requires t in s.txs && t !in Step(s, a).txs
    ensures a == Abort(t) || a == Execute(t) || a == Commit(t)
    ensures a == Commit(t) ==>
      Step(s, a).order == s.order + [t] && Step(s, a).committed == s.committed + s.txs[t].pending
    ensures a == Execute(t) ==>
      var tx := s.txs[t];
      && tx.next < |Statements(tx.op)|
      && (RunUpdate(s.committed + tx.pending, Statements(tx.op)[tx.next]).OutOfRange?
          || Step(s, a).refusals == s.refusals + [Refusal(t, tx.op, |s.order|)])
    ensures forall w :: |Step(s, Read(w)).readings| == |s.readings| + 1
  {
    hide RunUpdate, Statements;
  }

  // ---------------------------------------------------------------- frame of a statement

  /** The rows named by the first i statements. */
  function Touched(op: Op, i: nat): set<Key>
    requires i <= |Statements(op)|
  {
    set j | 0 <= j < i :: Statements(op)[j].key
  }

  lemma TouchedNext(op: Op, i: nat)
    requires i < |Statements(op)|
    ensures Touched(op, i + 1) == Touched(op, i) + {Statements(op)[i].key}
  {
  }

  /** A view differs from the rows it started from only where a statement wrote. */
  lemma {:induction false} AfterFrame(c: Rows, op: Op, i: nat)
    requires i <= |Statements(op)| && After(c, op, i).Done?
    ensures After(c, op, i).rows.Keys == c.Keys
    ensures forall k :: k in c && k !in Touched(op, i) ==> After(c, op, i).rows[k] == c[k]
  {
    if i > 0 {
      AfterFrame(c, op, i - 1);
      TouchedNext(op, i - 1);
    }
  }

  /** Two views that agree on the statement's row agree on what the statement does to it. */
  lemma StatementStable(v: Rows, w: Rows, op: Op, i: nat)
    requires i < |Statements(op)| && v.Keys == w.Keys
    requires Statements(op)[i].key in v ==> v[Statements(op)[i].key] == w[Statements(op)[i].key]
    requires RunStatement(v, op, i).Done?
    ensures RunStatement(w, op, i).Done?
    ensures RunStatement(v, op, i).rows.Keys == RunStatement(w, op, i).rows.Keys == v.Keys
    ensures forall k :: k in v && v[k] == w[k] ==> RunStatement(v, op, i).rows[k] == RunStatement(w, op, i).rows[k]
  {
  }

  /** Rows a transaction has not written may change under it without changing what its statements did. */
  lemma {:induction false} AfterStable(c: Rows, d: Rows, op: Op, i: nat)
    requires i <= |Statements(op)| && c.Keys == d.Keys && After(c, op, i).Done?
    requires forall k :: k in c && k in Touched(op, i) ==> c[k] == d[k]
    ensures After(d, op, i).Done?
    ensures After(d, op, i).rows.Keys == After(c, op, i).rows.Keys == d.Keys
    ensures forall k :: k in c && k in Touched(op, i) ==> After(d, op, i).rows[k] == After(c, op, i).rows[k]
  {
    hide RunStatement, Statements, Touched;
    if i > 0 {
      TouchedNext(op, i - 1);
      AfterStable(c, d, op, i - 1);
      AfterFrame(c, op, i - 1);
      AfterFrame(d, op, i - 1);
      var v, w := After(c, op, i - 1).rows, After(d, op, i - 1).rows;
      assert forall k :: k in c && k in Touched(op, i) ==> v[k] == w[k];
      StatementStable(v, w, op, i - 1);
    }
  }

  // ---------------------------------------------------------------- invariant

  /** A transaction's writes are what its statements would produce on the rows committed now. */
  ghost predicate TxConsistent(committed: Rows, tx: Tx) {
    && tx.next <= |Statements(tx.op)|
    && tx.pending.Keys == Touched(tx.op, tx.next) * committed.Keys
    && After(committed, tx.op, tx.next) == Done(committed + tx.pending)
  }

  ghost predicate LocksExclusive(s: DB) {
    forall t, u :: t in s.txs && u in s.txs && t != u ==> s.txs[t].pending.Keys !! s.txs[u].pending.Keys
  }

  ghost predicate RefusalRight(rows: Rows, h: seq<Op>, r: Refusal) {
    r.at <= |h| && Apply(Replay(rows, h[..r.at]), r.op).Refused?
  }

  ghost predicate ReadingRight(rows: Rows, h: seq<Op>, r: Reading) {
    r.at <= |h| && r.seen == Balances(Replay(rows, h[..r.at]), r.wallet)
  }

  /** The amount is the row's value in the replay that ends with the transaction itself. */
  ghost predicate ReceiptRight(rows: Rows, order: seq<nat>, h: seq<Op>, r: Receipt) {
    && 0 < r.at <= |h| && r.at <= |order| && order[r.at - 1] == r.t
    && var k := Statements(h[r.at - 1])[0].key;
       var after := Replay(rows, h[..r.at]);
       k in after && after[k] == r.amount
  }

  ghost predicate AnswersJustified(rows: Rows, s: DB, h: seq<Op>) {
    && (forall r :: r in s.refusals ==> RefusalRight(rows, h, r))
    && (forall r :: r in s.receipts ==> ReceiptRight(rows, s.order, h, r))
    && (forall r :: r in s.readings ==> ReadingRight(rows, h, r))
  }

  ghost predicate TxsConsistent(s: DB) {
    forall t :: t in s.txs ==> TxConsistent(s.committed, s.txs[t])
  }

  ghost predicate Serial(rows: Rows, committed: Rows, h: seq<Op>) {
    AllCommit(rows, h) && committed == Replay(rows, h)
  }

  /** The part of the invariant that speaks about running transactions. */
  ghost predicate TxsInv(s: DB) {
    s.WellOrdered() && TxsConsistent(s) && LocksExclusive(s)
  }

  ghost predicate Inv(rows: Rows, s: DB) {
    && TxsInv(s)
    && Serial(rows, s.committed, s.History())
    && AnswersJustified(rows, s, s.History())
  }

  lemma ReplaceTx(s: DB, t: nat, tx: Tx)
    requires TxsInv(s) && t in s.txs && tx.op == s.txs[t].op && TxConsistent(s.committed, tx)
    requires forall other :: other in s.txs && other != t ==> tx.pending.Keys !! s.txs[other].pending.Keys
    ensures TxsInv(s.(txs := s.txs[t := tx]))
  {
    hide TxConsistent;
    var s' := s.(txs := s.txs[t := tx]);
    forall u | u in s'.txs ensures TxConsistent(s'.committed, s'.txs[u]) {
      assert s'.txs[u] == if u == t then tx else s.txs[u];
    }
    assert s'.WellOrdered();
    assert LocksExclusive(s');
  }

  lemma DropTx(s: DB, t: nat)
    requires TxsInv(s)
    ensures TxsInv(s.(txs := s.txs - {t}))
  {
    hide TxConsistent;
    var s' := s.(txs := s.txs - {t});
    forall u | u in s'.txs ensures TxConsistent(s'.committed, s'.txs[u]) {
      assert s'.txs[u] == s.txs[u];
    }
    assert s'.WellOrdered();
    assert LocksExclusive(s');
  }

  lemma AddTx(s: DB, op: Op)
    requires TxsInv(s)
    ensures TxsInv(Step(s, Begin(op)))
  {
    hide TxConsistent;
    var s' := Step(s, Begin(op));
    FreshTx(s.committed, op);
    forall u | u in s'.txs ensures TxConsistent(s'.committed, s'.txs[u]) {
      assert s'.txs[u] == if u == |s.begun| then Tx(op, 0, map[]) else s.txs[u];
    }
    assert s'.WellOrdered();
    assert LocksExclusive(s');
  }

  lemma FreshTx(c: Rows, op: Op)
    ensures TxConsistent(c, Tx(op, 0, map[]))
  {
    assert Touched(op, 0) == {};
    assert c + map[] == c;
  }

  /** Answers given to clients do not concern the transactions. */
  lemma AnswerTx(s: DB, refusals: seq<Refusal>, readings: seq<Reading>)
    requires TxsInv(s)
    ensures TxsInv(s.(refusals := refusals, readings := readings))
  {
    hide TxConsistent;
    var s' := s.(refusals := refusals, readings := readings);
    assert s'.WellOrdered();
    assert TxsConsistent(s');
    assert LocksExclusive(s');
  }

  /** Executing a statement moves no committed row and commits nothing. */
  lemma ExecuteKeepsTxs(s: DB, t: nat)
    requires TxsInv(s)
    requires t in s.txs && s.txs[t].next < |Statements(s.txs[t].op)|
    ensures TxsInv(ExecuteStatement(s, t))
  {
    hide TxConsistent;
    var tx := s.txs[t];
    var u := Statements(tx.op)[tx.next];
    ExecuteOwn(s.committed, tx);
    match RunUpdate(s.committed + tx.pending, u)
    case NoRow =>
      if MustHit(tx.op, tx.next) {
        DropTx(s, t);
        AnswerTx(s.(txs := s.txs - {t}), s.refusals + [Refusal(t, tx.op, |s.order|)], s.readings);
      } else { ReplaceTx(s, t, tx.(next := tx.next + 1)); }
    case OutOfRange => DropTx(s, t);
    case Written(n) =>
      if !LockedByOther(s, t, u.key) {
        ReplaceTx(s, t, Tx(tx.op, tx.next + 1, tx.pending[u.key := n]));
      }
  }

  lemma ExecuteOwn(c: Rows, tx: Tx)
    requires TxConsistent(c, tx) && tx.next < |Statements(tx.op)|
    ensures
      var u := Statements(tx.op)[tx.next];
      var hit := RunUpdate(c + tx.pending, u);
      && (hit.Written? ==> TxConsistent(c, Tx(tx.op, tx.next + 1, tx.pending[u.key := hit.cents])))
      && (hit.NoRow? && !MustHit(tx.op, tx.next) ==> TxConsistent(c, tx.(next := tx.next + 1)))
  {
    var view := c + tx.pending;
    var u := Statements(tx.op)[tx.next];
    TouchedNext(tx.op, tx.next);
    assert view.Keys == c.Keys;
    assert After(c, tx.op, tx.next + 1) == RunStatement(view, tx.op, tx.next);
    match RunUpdate(view, u)
    case NoRow =>
      if !MustHit(tx.op, tx.next) { assert u.guard.None? && u.key !in c; }
    case OutOfRange =>
    case Written(n) =>
      assert view[u.key := n] == c + tx.pending[u.key := n];
  }

  /**
   A transaction refused on the committed rows and its own writes has written nothing: run alone it
   would be refused too.
   */
  lemma RefusedAlone(c: Rows, tx: Tx)
    requires TxConsistent(c, tx) && tx.next < |Statements(tx.op)| && MustHit(tx.op, tx.next)
    requires RunUpdate(c + tx.pending, Statements(tx.op)[tx.next]).NoRow?
    ensures Apply(c, tx.op).Refused?
  {
    assert tx.next == 0;
    assert After(c, tx.op, 0) == Done(c) == Done(c + tx.pending);
    assert After(c, tx.op, 1) == RunStatement(c, tx.op, 0) == Refused;
    if |Statements(tx.op)| == 2 { assert After(c, tx.op, 2) == Refused; }
  }

  lemma ExecuteKeepsAnswers(rows: Rows, s: DB, t: nat, h: seq<Op>)
    requires TxsConsistent(s) && AnswersJustified(rows, s, h) && Serial(rows, s.committed, h) && |h| == |s.order|
    requires t in s.txs && s.txs[t].next < |Statements(s.txs[t].op)|
    ensures AnswersJustified(rows, ExecuteStatement(s, t), h)
  {
    var tx := s.txs[t];
    assert TxConsistent(s.committed, tx);
    if MustHit(tx.op, tx.next) && RunUpdate(s.committed + tx.pending, Statements(tx.op)[tx.next]).NoRow? {
      RefusedAlone(s.committed, tx);
      assert h[..|s.order|] == h;
      assert RefusalRight(rows, h, Refusal(t, tx.op, |s.order|));
    }
  }

  /** Committing one transaction leaves every other one consistent: their locked rows did not move. */
  lemma OthersStayConsistent(s: DB, t: nat, other: nat)
    requires t in s.txs && other in s.txs && t != other && LocksExclusive(s)
    requires TxConsistent(s.committed, s.txs[t]) && TxConsistent(s.committed, s.txs[other])
    ensures TxConsistent(s.committed + s.txs[t].pending, s.txs[other])
  {
    var c, d := s.committed, s.committed + s.txs[t].pending;
    var o := s.txs[other];
    assert d.Keys == c.Keys;
    forall k | k in c && k in Touched(o.op, o.next) ensures c[k] == d[k] {
      assert k in o.pending.Keys;
    }
    AfterStable(c, d, o.op, o.next);
    AfterFrame(d, o.op, o.next);
    assert After(d, o.op, o.next).rows == d + o.pending;
  }

  lemma CommitKeepsTxs(s: DB, t: nat)
    requires TxsInv(s) && t in s.txs && s.txs[t].next == |Statements(s.txs[t].op)|
    ensures TxsInv(Step(s, Commit(t)))
  {
    hide TxConsistent;
    var s' := Step(s, Commit(t));
    forall u | u in s'.txs ensures TxConsistent(s'.committed, s'.txs[u]) {
      assert s'.txs[u] == s.txs[u];
      OthersStayConsistent(s, t, u);
    }
    assert s'.WellOrdered();
    assert LocksExclusive(s');
  }

  lemma FinishedTx(c: Rows, tx: Tx)
    requires TxConsistent(c, tx) && tx.next == |Statements(tx.op)|
    ensures Apply(c, tx.op) == Done(c + tx.pending)
  {
  }

  lemma SerialExtend(rows: Rows, c: Rows, h: seq<Op>, op: Op, d: Rows)
    requires Serial(rows, c, h) && Apply(c, op) == Done(d)
    ensures Serial(rows, d, h + [op])
  {
    ReplayExtend(rows, h, op);
  }

  lemma CommitKeepsInv(rows: Rows, s: DB, t: nat)
    requires Inv(rows, s) && t in s.txs && s.txs[t].next == |Statements(s.txs[t].op)|
    ensures Inv(rows, Step(s, Commit(t)))
  {
    hide Statements, Replay, AllCommit, Apply, AnswersJustified, TxsInv;
    var s' := Step(s, Commit(t));
    var op := s.txs[t].op;
    OneOf(s, t);
    FinishedTx(s.committed, s.txs[t]);
    SerialExtend(rows, s.committed, s.History(), op, s'.committed);
    CommitKeepsTxs(s, t);
    HistoryExtend(s, s', t);
    AnswersOutliveCommit(rows, s, s.History(), op, t);
    ReceiptIsRight(rows, s, s', t, s.History() + [op]);
  }

  lemma OneOf(s: DB, t: nat)
    requires TxsInv(s) && t in s.txs
    ensures s.WellOrdered() && TxConsistent(s.committed, s.txs[t])
  {
  }

  lemma HistoryExtend(s: DB, s': DB, t: nat)
    requires s.WellOrdered() && t in s.txs && s'.begun == s.begun && s'.order == s.order + [t]
    ensures s'.History() == s.History() + [s.txs[t].op]
  {
  }

  lemma AnswersOutliveCommit(rows: Rows, s: DB, h: seq<Op>, op: Op, t: nat)
    requires AnswersJustified(rows, s, h)
    ensures AnswersJustified(rows, s.(order := s.order + [t]), h + [op])
  {
    forall r | r in s.refusals ensures RefusalRight(rows, h + [op], r) {
      assert RefusalRight(rows, h, r) && (h + [op])[..r.at] == h[..r.at];
    }
    forall r | r in s.receipts ensures ReceiptRight(rows, s.order + [t], h + [op], r) {
      assert ReceiptRight(rows, s.order, h, r) && (h + [op])[..r.at] == h[..r.at];
    }
    forall r | r in s.readings ensures ReadingRight(rows, h + [op], r) {
      assert ReadingRight(rows, h, r) && (h + [op])[..r.at] == h[..r.at];
    }
  }

  lemma ReceiptIsRight(rows: Rows, s: DB, s': DB, t: nat, h: seq<Op>)
    requires t in s.txs && s' == Step(s, Commit(t)) && s'.order == s.order + [t]
    requires AnswersJustified(rows, s.(order := s'.order), h)
    requires |h| == |s.order| + 1 && h[|s.order|] == s.txs[t].op
      && s'.committed == s.committed + s.txs[t].pending == Replay(rows, h)
    requires s'.receipts == s.receipts + ReceiptOf(s, t)
    ensures AnswersJustified(rows, s', h)
  {
    hide Replay, Statements, RefusalRight, ReadingRight;
    forall r | r in s'.receipts ensures ReceiptRight(rows, s'.order, h, r) {
      if r !in s.receipts { assert h[..r.at] == h; }
    }
  }

  /** A step that commits nothing keeps the invariant if it keeps the transactions and gives only right answers. */
  lemma NothingCommitted(rows: Rows, s: DB, s': DB)
    requires Inv(rows, s) && TxsInv(s')
    requires s'.committed == s.committed && s'.order == s.order && s.begun <= s'.begun
    requires AnswersJustified(rows, s', s.History())
    ensures Inv(rows, s')
  {
    assert s'.History() == s.History();
  }

  lemma ReadKeepsInv(rows: Rows, s: DB, w: int)
    requires Inv(rows, s)
    ensures Inv(rows, Step(s, Read(w)))
  {
    hide TxsConsistent, LocksExclusive, Balances, AllCommit, Replay;
    var s' := Step(s, Read(w));
    var h := s.History();
    AnswerTx(s, s.refusals, s'.readings);
    assert h[..|s.order|] == h;
    assert ReadingRight(rows, h, Reading(w, Balances(s.committed, w), |s.order|));
    NothingCommitted(rows, s, s');
  }

  lemma ExecuteKeepsInv(rows: Rows, s: DB, t: nat)
    requires Inv(rows, s) && t in s.txs && s.txs[t].next < |Statements(s.txs[t].op)|
    ensures Inv(rows, ExecuteStatement(s, t))
  {
    hide TxConsistent, Serial, AnswersJustified, LocksExclusive, RunUpdate;
    ExecuteKeepsTxs(s, t);
    ExecuteKeepsAnswers(rows, s, t, s.History());
    NothingCommitted(rows, s, ExecuteStatement(s, t));
  }

  lemma StepKeepsInv(rows: Rows, s: DB, a: Action)
    requires Inv(rows, s)
    ensures Inv(rows, Step(s, a))
  {
    hide Inv;
    match a
    case Begin(op) =>
      BeginKeepsInv(rows, s, op);
    case Execute(t) =>
      if t in s.txs && s.txs[t].next < |Statements(s.txs[t].op)| { ExecuteKeepsInv(rows, s, t); }
    case Commit(t) =>
      if t in s.txs && s.txs[t].next == |Statements(s.txs[t].op)| { CommitKeepsInv(rows, s, t); }
    case Abort(t) =>
      AbortKeepsInv(rows, s, t);
    case Read(w) =>
      ReadKeepsInv(rows, s, w);
  }

  lemma BeginKeepsInv(rows: Rows, s: DB, op: Op)
    requires Inv(rows, s)
    ensures Inv(rows, Step(s, Begin(op)))
  {
    hide TxConsistent;
    AddTx(s, op);
    NothingCommitted(rows, s, Step(s, Begin(op)));
  }

  lemma AbortKeepsInv(rows: Rows, s: DB, t: nat)
    requires Inv(rows, s)
    ensures Inv(rows, Step(s, Abort(t)))
  {
    hide TxConsistent;
    DropTx(s, t);
    NothingCommitted(rows, s, Step(s, Abort(t)));
  }

  lemma {:induction false} ExecKeepsInv(rows: Rows, acts: seq<Action>)
    ensures Inv(rows, Exec(Start(rows), acts))
  {
    if acts == [] {
      assert Start(rows).History() == [];
    } else {
      ExecKeepsInv(rows, acts[..|acts| - 1]);
      StepKeepsInv(rows, Exec(Start(rows), acts[..|acts| - 1]), acts[|acts| - 1]);
    }
  }

  // ---------------------------------------------------------------- theorems

  /**
   Serialisability.  However the statements interleave and whatever aborts, the
   committed balances are those of running the committed operations one after the
   other in commit order, each succeeding at its turn and each transaction at most once; and no
   transaction ever adds or removes a row.
   */
  lemma Serializable(rows: Rows, acts: seq<Action>)
    ensures
      var s := Exec(Start(rows), acts);
      && s.WellOrdered()
      && AllCommit(rows, s.History())
      && s.committed == Replay(rows, s.History()) && s.committed.Keys == rows.Keys
  {
    ExecKeepsInv(rows, acts);
    ReplayKeepsKeys(rows, Exec(Start(rows), acts).History());
  }

  /** What has been begun, committed and answered stays. */
  ghost predicate Extends(s: DB, t: DB) {
    s.begun <= t.begun && s.order <= t.order && s.refusals <= t.refusals && s.receipts <= t.receipts
      && s.readings <= t.readings
  }

  lemma StepExtends(s: DB, a: Action)
    ensures Extends(s, Step(s, a))
  {
    hide Statements, RunUpdate, Balances, LockedByOther;
  }

  lemma {:induction false} RunExtends(rows: Rows, acts: seq<Action>, n: nat)
    requires n <= |acts|
    ensures Extends(Exec(Start(rows), acts[..n]), Exec(Start(rows), acts))
    decreases |acts|
  {
    hide Step;
    if n == |acts| {
      assert acts[..n] == acts;
    } else {
      var before := acts[..|acts| - 1];
      RunExtends(rows, before, n);
      assert before[..n] == acts[..n];
      StepExtends(Exec(Start(rows), before), acts[|acts| - 1]);
    }
  }

  /** The n-th action of the run is the read that gave the i-th balance sheet. */
  ghost predicate ReadAt(rows: Rows, acts: seq<Action>, n: nat, i: nat) {
    && n < |acts| && i < |Exec(Start(rows), acts).readings|
    && var r, before := Exec(Start(rows), acts).readings[i], Exec(Start(rows), acts[..n]);
       acts[n] == Read(r.wallet) && |before.readings| == i && r.at == |before.order|
  }

  lemma {:induction false} ReadingHasItsMoment(rows: Rows, acts: seq<Action>, i: nat) returns (n: nat)
    requires i < |Exec(Start(rows), acts).readings|
    ensures ReadAt(rows, acts, n, i)
  {
    hide Step;
    var g, last := acts[..|acts| - 1], |acts| - 1;
    var before := Exec(Start(rows), g);
    StepExtends(before, acts[last]);
    if i < |before.readings| {
      n := ReadingHasItsMoment(rows, g, i);
      assert g[..n] == acts[..n] && g[n] == acts[n];
    } else {
      n := last;
      NewReading(before, acts[last]);
    }
  }

  lemma NewReading(s: DB, a: Action)
    ensures Step(s, a).readings == s.readings
      + if a.Read? then [Reading(a.wallet, Balances(s.committed, a.wallet), |s.order|)] else []
  {
    hide Statements, RunUpdate, Balances, LockedByOther;
  }

  /**
   Every balance sheet is that of the operations committed when it was read, so no debit is
   seen without its credit; and no later sheet is of a shorter prefix.
   */
  lemma ReadsSeePrefixes(rows: Rows, acts: seq<Action>, i: nat)
    requires i < |Exec(Start(rows), acts).readings|
    ensures
      var s := Exec(Start(rows), acts);
      var r := s.readings[i];
      && s.WellOrdered() && r.at <= |s.order|
      && r.seen == Balances(Replay(rows, s.History()[..r.at]), r.wallet)
      && (exists n: nat :: ReadAt(rows, acts, n, i) && Exec(Start(rows), acts[..n]).order == s.order[..r.at])
      && (forall j :: i <= j < |s.readings| ==> r.at <= s.readings[j].at)
  {
    hide Exec, Step, Replay, AllCommit, Balances;
    ExecKeepsInv(rows, acts);
    var s := Exec(Start(rows), acts);
    assert ReadingRight(rows, s.History(), s.readings[i]);
    var n := ReadingHasItsMoment(rows, acts, i);
    RunExtends(rows, acts, n);
    forall j | i <= j < |s.readings| ensures s.readings[i].at <= s.readings[j].at {
      LaterReadsSeeMore(rows, acts, i, j);
    }
  }

  lemma LaterReadsSeeMore(rows: Rows, acts: seq<Action>, i: nat, j: nat)
    requires i <= j < |Exec(Start(rows), acts).readings|
    ensures Exec(Start(rows), acts).readings[i].at <= Exec(Start(rows), acts).readings[j].at
  {
    hide Exec, Step;
    var n := ReadingHasItsMoment(rows, acts, i);
    var m := ReadingHasItsMoment(rows, acts, j);
    if n <= m {
      RunExtends(rows, acts[..m], n);
      assert acts[..m][..n] == acts[..n];
    } else {
      RunExtends(rows, acts[..n], m);
      assert acts[..n][..m] == acts[..m];
    }
  }

  /** Transaction t was begun by the m-th action, refused by the n-th, and that gave the i-th refusal. */
  ghost predicate RefusedAt(rows: Rows, acts: seq<Action>, m: nat, n: nat, i: nat) {
    && m < n < |acts| && i < |Exec(Start(rows), acts).refusals|
    && var r := Exec(Start(rows), acts).refusals[i];
       var before, begin := Exec(Start(rows), acts[..n]), Exec(Start(rows), acts[..m]);
       && acts[m] == Begin(r.op) && |begin.begun| == r.t
       && acts[n] == Execute(r.t) && |before.refusals| == i && |begin.order| <= r.at == |before.order|
  }

  lemma {:induction false} BegunAt(rows: Rows, acts: seq<Action>, t: nat) returns (m: nat)
    requires t < |Exec(Start(rows), acts).begun|
    ensures m < |acts| && acts[m] == Begin(Exec(Start(rows), acts).begun[t])
      && |Exec(Start(rows), acts[..m]).begun| == t
  {
    hide Step;
    var g, last := acts[..|acts| - 1], |acts| - 1;
    var before := Exec(Start(rows), g);
    StepExtends(before, acts[last]);
    if t < |before.begun| {
      m := BegunAt(rows, g, t);
      assert g[..m] == acts[..m] && g[m] == acts[m];
    } else {
      m := last;
      NewBegin(before, acts[last]);
    }
  }

  lemma NewBegin(s: DB, a: Action)
    ensures Step(s, a).begun == s.begun + if a.Begin? then [a.op] else []
  {
    hide Statements, RunUpdate, Balances, LockedByOther;
  }

  lemma NewRefusal(s: DB, a: Action)
    requires |Step(s, a).refusals| > |s.refusals|
    ensures a.Execute? && a.t in s.txs && Step(s, a).refusals == s.refusals + [Refusal(a.t, s.txs[a.t].op, |s.order|)]
  {
    hide Statements, RunUpdate, Balances, LockedByOther;
  }

  lemma {:induction false} RefusalHasItsMoment(rows: Rows, acts: seq<Action>, i: nat) returns (m: nat, n: nat)
    requires i < |Exec(Start(rows), acts).refusals|
    ensures RefusedAt(rows, acts, m, n, i)
  {
    hide Step;
    var g, last := acts[..|acts| - 1], |acts| - 1;
    var before := Exec(Start(rows), g);
    StepExtends(before, acts[last]);
    if i < |before.refusals| {
      m, n := RefusalHasItsMoment(rows, g, i);
      assert g[..n] == acts[..n] && g[n] == acts[n] && g[..m] == acts[..m] && g[m] == acts[m];
    } else {
      n := last;
      m := LastRefused(rows, acts, i);
    }
  }

  lemma LastRefused(rows: Rows, acts: seq<Action>, i: nat) returns (m: nat)
    requires acts != []
    requires |Exec(Start(rows), acts[..|acts| - 1]).refusals| <= i < |Exec(Start(rows), acts).refusals|
    ensures RefusedAt(rows, acts, m, |acts| - 1, i)
  {
    hide Step, Exec, Inv;
    var g, a := acts[..|acts| - 1], acts[|acts| - 1];
    var before := Exec(Start(rows), g);
    ExecOne(rows, acts);
    NewRefusal(before, a);
    ExecKeepsInv(rows, g);
    OneOfTxs(rows, before, a.t);
    m := BegunAt(rows, g, a.t);
    RunExtends(rows, g, m);
    assert g[..m] == acts[..m] && g[m] == acts[m];
  }

  lemma ExecOne(rows: Rows, acts: seq<Action>)
    requires acts != []
    ensures Exec(Start(rows), acts) == Step(Exec(Start(rows), acts[..|acts| - 1]), acts[|acts| - 1])
  {
  }

  lemma OneOfTxs(rows: Rows, s: DB, t: nat)
    requires Inv(rows, s) && t in s.txs
    ensures t < |s.begun| && s.txs[t].op == s.begun[t]
  {
  }

  /**
   Every refusal was right when it was given: on the operations committed at the statement
   that was refused, which is not before the transaction began, the operation run alone is refused.
   */
  lemma RefusalsAreRight(rows: Rows, acts: seq<Action>, i: nat)
    requires i < |Exec(Start(rows), acts).refusals|
    ensures
      var s := Exec(Start(rows), acts);
      var r := s.refusals[i];
      && s.WellOrdered() && r.at <= |s.order|
      && Apply(Replay(rows, s.History()[..r.at]), r.op).Refused?
      && exists m: nat, n: nat ::
           RefusedAt(rows, acts, m, n, i) && Exec(Start(rows), acts[..n]).order == s.order[..r.at]
  {
    hide Exec, Step, Replay, AllCommit, Apply;
    ExecKeepsInv(rows, acts);
    var s := Exec(Start(rows), acts);
    assert RefusalRight(rows, s.History(), s.refusals[i]);
    var m, n := RefusalHasItsMoment(rows, acts, i);
    RunExtends(rows, acts, n);
  }

  /** The n-th action of the run is the commit that gave the i-th receipt. */
  ghost predicate ReceivedAt(rows: Rows, acts: seq<Action>, n: nat, i: nat) {
    && n < |acts| && i < |Exec(Start(rows), acts).receipts|
    && var r, before := Exec(Start(rows), acts).receipts[i], Exec(Start(rows), acts[..n]);
       acts[n] == Commit(r.t) && |before.receipts| == i && r.at == |before.order| + 1
  }

  lemma NewReceipt(s: DB, a: Action)
    requires |Step(s, a).receipts| > |s.receipts|
    ensures a.Commit? && a.t in s.txs && Step(s, a).receipts == s.receipts + ReceiptOf(s, a.t)
      && |ReceiptOf(s, a.t)| == 1
  {
    hide Statements, RunUpdate, Balances, LockedByOther;
  }

  lemma {:induction false} ReceiptHasItsMoment(rows: Rows, acts: seq<Action>, i: nat) returns (n: nat)
    requires i < |Exec(Start(rows), acts).receipts|
    ensures ReceivedAt(rows, acts, n, i)
  {
    hide Step;
    var g, last := acts[..|acts| - 1], |acts| - 1;
    var before := Exec(Start(rows), g);
    StepExtends(before, acts[last]);
    if i < |before.receipts| {
      n := ReceiptHasItsMoment(rows, g, i);
      assert g[..n] == acts[..n] && g[n] == acts[n];
    } else {
      n := last;
      NewReceipt(before, acts[last]);
    }
  }

  /** Every deposit or withdrawal that commits gives a receipt. */
  lemma CommitGivesReceipt(rows: Rows, s: DB, t: nat)
    requires Inv(rows, s) && t in s.txs && s.txs[t].next == |Statements(s.txs[t].op)| && !s.txs[t].op.Exchange?
    ensures |Step(s, Commit(t)).receipts| == |s.receipts| + 1
  {
    var tx, c := s.txs[t], s.committed;
    assert TxConsistent(c, tx);
    assert tx.next == 1 && After(c, tx.op, 0) == Done(c) && After(c, tx.op, 1) == RunStatement(c, tx.op, 0);
    var k := Statements(tx.op)[0].key;
    TouchedNext(tx.op, 0);
    assert k in Touched(tx.op, 1) && k in c;
  }

  /**
   The amount a concurrent deposit or withdrawal returns is its row's value in the replay just
   after its own commit, whatever else was running.
   */
  lemma ReceiptsAreRight(rows: Rows, acts: seq<Action>, i: nat)
    requires i < |Exec(Start(rows), acts).receipts|
    ensures
      var s := Exec(Start(rows), acts);
      var r := s.receipts[i];
      && s.WellOrdered() && 0 < r.at <= |s.order| && s.order[r.at - 1] == r.t
      && (var k, after := Statements(s.begun[r.t])[0].key, Replay(rows, s.History()[..r.at]);
          k in after && after[k] == r.amount)
      && exists n: nat :: ReceivedAt(rows, acts, n, i)
  {
    hide Exec, Step, Replay, AllCommit, Apply, Statements;
    ExecKeepsInv(rows, acts);
    var s := Exec(Start(rows), acts);
    assert ReceiptRight(rows, s.order, s.History(), s.receipts[i]);
    var n := ReceiptHasItsMoment(rows, acts, i);
  }

  lemma {:induction false} BegunComesFromActions(rows: Rows, acts: seq<Action>, op: Op)
    requires op in Exec(Start(rows), acts).begun
    ensures Begin(op) in acts
  {
    if acts != [] {
      var before := acts[..|acts| - 1];
      if op in Exec(Start(rows), before).begun {
        BegunComesFromActions(rows, before, op);
      } else {
        assert acts[|acts| - 1] == Begin(op);
      }
    }
  }

  /** No interleaving of sane requests can take a balance below zero or to 10^16 units. */
  lemma ConcurrentBalancesInRange(rows: Rows, acts: seq<Action>)
    requires InRange(rows)
    requires forall op :: Begin(op) in acts ==> Sane(op)
    ensures InRange(Exec(Start(rows), acts).committed)
    ensures forall r, c :: r in Exec(Start(rows), acts).readings && c in r.seen ==> 0 <= r.seen[c] < LIMIT
  {
    var s := Exec(Start(rows), acts);
    ExecKeepsInv(rows, acts);
    forall n: nat | n <= |s.order| ensures InRange(Replay(rows, s.History()[..n])) {
      forall op | op in s.History()[..n] ensures Sane(op) {
        BegunComesFromActions(rows, acts, op);
      }
      ReplayKeepsRange(rows, s.History()[..n]);
    }
    assert s.History()[..|s.order|] == s.History();
    forall r, c | r in s.readings && c in r.seen ensures 0 <= r.seen[c] < LIMIT {
      assert ReadingRight(rows, s.History(), r);
      assert InRange(Replay(rows, s.History()[..r.at]));
    }
  }

  /**
   Rounding never adds up to more than half a hundredth per committed update, however the
   transactions interleaved, and to nothing when all committed amounts are whole hundredths.
   */
  lemma ConcurrentDrift(rows: Rows, acts: seq<Action>, k: Key)
    requires k in rows
    ensures
      var s := Exec(Start(rows), acts);
      && s.WellOrdered() && k in s.committed
      && Near(s.committed[k] as real, rows[k] as real + TotalRequested(s.History(), k), TotalUpdates(s.History(), k))
      && ((forall op :: op in s.History() ==> WholeCents(op)) ==>
            s.committed[k] as real == rows[k] as real + TotalRequested(s.History(), k))
  {
    ExecKeepsInv(rows, acts);
    DriftBound(rows, Exec(Start(rows), acts).History(), k);
  }
}
