/**
 The wallet's three money endpoints: guards, then the ledger write, then the event and the
 answer.  Each is proved to keep the balances in range, to change money only for a
 request that passed its guards, and to publish only what the ledger has accepted.
 */
module Handlers {
  import opened Common
  import opened Consumption
  import opened Runs
  import C = ExchangeChain
  import L = Ledger
  import M = Money
  import N = Notification
  import P = Publisher
  import R = AuthRepo
  import X = ExchangerClient

  /** What reaches a handler: the method, the user from the token, and the decoded body. */
  datatype Incoming<B> = Incoming(post: bool, user: Option<int>, body: Option<B>)

  datatype AmountCurrency = AmountCurrency(amount: real, currency: string)

  datatype ExchangeBody = ExchangeBody(from: string, to: string, amount: real)

  /** The id and time drawn for the event, and what happens to its writes. */
  datatype EventEnv = EventEnv(id: string, createdAt: string, writes: P.WriteEnv)

  /** The exchanger's side of a rate lookup. */
  datatype RateEnv = RateEnv(now: int, rivals: seq<X.Section>, section: X.Section,
    pair: (string, string) -> X.PairReply)

  datatype ExchangeResponse = ExchangeResponse(rate: real, exchanged: int, newBalance: map<string, int>,
    source: X.Source)

  /** The machine's request and its ledger step, before anything is published. */
  lemma LedgerSteps(w: N.World, s: N.Sys, call: N.Call, ok: bool) returns (trace: seq<N.Action>, s': N.Sys)
    requires |s.calls| == |s.progress|
    ensures Path(P.Machine(w), s, trace, s')
    ensures s' == s.(calls := s.calls + [call], progress := s.progress + [if ok then N.Applied else N.Quiet])
  {
    hide Path;
    var c := |s.calls|;
    var mid := s.(calls := s.calls + [call], progress := s.progress + [N.Asked]);
    var a := if ok then N.LedgerOk(c) else N.LedgerFails(c);
    s' := N.Step(w, mid, a);
    PathStart(P.Machine(w), s);
    PathExtend(P.Machine(w), s, [], s, N.Request(call), mid);
    PathExtend(P.Machine(w), s, [] + [N.Request(call)], mid, a, s');
    trace := [] + [N.Request(call)] + [a];
    assert mid.progress[c := if ok then N.Applied else N.Quiet] == s.progress + [if ok then N.Applied else N.Quiet];
  }

  lemma AppliedKeepsRange(rows: L.Rows, op: L.Op)
    requires L.Sane(op)
    ensures L.InRange(rows) ==> L.InRange(R.Applied(rows, op))
  {
    if L.InRange(rows) { L.ApplyKeepsRange(rows, op); }
  }

  /**
   What a success leaves in the topic: nothing below the threshold; otherwise copies of one
   event, as many as the attempts up to the first acknowledged one left there.
   */
  ghost predicate Reported(before: seq<Entry>, after: seq<Entry>, publisher: P.Publisher?, e: Event,
      writes: P.WriteEnv)
  {
    if publisher == null || e.amount < publisher.threshold then after == before
    else
      && writes.Sound(publisher.retries)
      && exists n: nat ::
           && P.StopsAfter(writes, publisher.retries, n)
           && after == before + P.Repeat(Message(e), P.CopiesOf(writes.outcomes, n))
  }

  /**
   What was reported, spelled out.  n is the number of attempts, which is determined: up to the first
   acknowledged one, or all that the context and the configuration allow.
   */
  lemma ReportedExactly(before: seq<Entry>, after: seq<Entry>, publisher: P.Publisher?, e: Event,
      writes: P.WriteEnv, n: nat)
    requires publisher != null ==>
      && writes.Sound(publisher.retries) && 1 <= n <= publisher.retries && n <= writes.cancelAt
      && (forall k :: 0 <= k < n - 1 ==> !writes.outcomes[k].acked)
      && (n < publisher.retries && n < writes.cancelAt ==> writes.outcomes[n - 1].acked)
    ensures Reported(before, after, publisher, e, writes) <==>
      if publisher == null || e.amount < publisher.threshold then after == before
      else
        && before <= after && |after| == |before| + P.CopiesOf(writes.outcomes, n)
        && forall k :: |before| <= k < |after| ==> after[k] == Message(e)
  {
    hide P.CopiesOf;
    if publisher != null && e.amount >= publisher.threshold {
      assert P.StopsAfter(writes, publisher.retries, n);
      assert forall m: nat :: P.StopsAfter(writes, publisher.retries, m) ==> m == n;
      var copies := P.Repeat(Message(e), P.CopiesOf(writes.outcomes, n));
      assert forall k :: 0 <= k < |copies| ==> copies[k] in copies;
      if before <= after && |after| == |before| + |copies|
        && forall k :: |before| <= k < |after| ==> after[k] == Message(e)
      {
        assert after == before + copies;
      }
    }
  }

  class Handler {
    const repo: R.Repo
    const publisher: P.Publisher?
    const client: X.ExchangerClient?

    constructor (repo: R.Repo, publisher: P.Publisher?, client: X.ExchangerClient?)
      ensures this.repo == repo && this.publisher == publisher && this.client == client
    {
      this.repo, this.publisher, this.client := repo, publisher, client;
    }

    function Published(): seq<Entry>
      reads if publisher == null then {} else {publisher.topic}
    {
      if publisher == null then [] else publisher.topic.entries
    }

    /** The machine is in step with this handler: its topic is ours, and the next call's id is the one drawn here. */
    ghost predicate InStep(w: N.World, s: N.Sys, env: EventEnv)
      reads if publisher == null then {} else {publisher.topic}
    {
      |s.calls| == |s.progress| && (publisher != null ==>
        publisher.Serves(w) && env.writes.Sound(publisher.retries) && w.ids(|s.calls|) == env.id
          && s.log == publisher.topic.entries)
    }

    /** Publishing after a ledger success: at most one event, and only from the threshold on. */
    method Report(user: int, kind: string, currency: string, amount: real, env: EventEnv, ghost w: N.World,
        ghost s: N.Sys)
      returns (ghost trace: seq<N.Action>, ghost s': N.Sys)
      requires InStep(w, s, env)
      modifies if publisher == null then {} else {publisher.topic}
      ensures Path(P.Machine(w), s, trace, s') && (publisher != null ==> s'.log == publisher.topic.entries)
      ensures s'.calls == s.calls + [N.Call(user, kind, currency, amount)] && s'.consumer == s.consumer
      ensures Reported(old(Published()), Published(), publisher,
        Event(env.id, user, kind, amount, currency, env.createdAt), env.writes)
    {
      hide Path, N.Step, P.StopsAfter, P.CopiesOf;
      ghost var call := N.Call(user, kind, currency, amount);
      trace, s' := LedgerSteps(w, s, call, true);
      if publisher != null {
        ghost var mid := s';
        var published, attempts, pauses;
        ghost var t;
        published, attempts, pauses, t, s' :=
          publisher.Publish(user, kind, currency, amount, env.id, env.createdAt, env.writes, w, mid, |s.calls|);
        PathJoin(P.Machine(w), s, trace, mid, t, s');
        trace := trace + t;
      }
    }

    /** lookup says whether the wallet query works. */
    method HandleDeposit(call: Incoming<AmountCurrency>, lookup: bool, io: IO, env: EventEnv, ghost w: N.World,
        ghost s: N.Sys)
      returns (status: int, newAmount: int, ghost trace: seq<N.Action>, ghost s': N.Sys)
      requires InStep(w, s, env)
      modifies repo, if publisher == null then {} else {publisher.topic}
      ensures Path(P.Machine(w), s, trace, s') && (publisher != null ==> s'.log == publisher.topic.entries)
      ensures
        var was, now := old(repo.balances), repo.balances;
        if !call.post then status == 405 && now == was
        else if call.user.None? then status == 401 && now == was
        else if call.body.None? || call.body.value.amount <= 0.0 then status == 400 && now == was
        else if call.body.value.currency !in {"USD", "RUB", "EUR"} then status == 400 && now == was
        else if !lookup then status == 500 && now == was
        else if call.user.value !in repo.wallets then status == 404 && now == was
        else
          var k := L.Key(repo.wallets[call.user.value], call.body.value.currency);
          if k !in was then status == (if io.Ok? then 404 else 500) && now == was
          else
            var n := M.Round(was[k] as real + call.body.value.amount);
            if -M.LIMIT < n < M.LIMIT then
              && now == (if io.Failed? then was else was[k := n])
              && status == (if io.Ok? then 200 else 500) && (status == 200 ==> newAmount == n)
            else status == 500 && now == was
      ensures status != 200 ==> Published() == old(Published())
      ensures status == 200 ==> Reported(old(Published()), Published(), publisher,
        Event(env.id, call.user.value, "deposit", call.body.value.amount, call.body.value.currency,
          env.createdAt), env.writes)
      ensures L.InRange(old(repo.balances)) ==> L.InRange(repo.balances)
    {
      hide Path, N.Step, Reported, L.Apply;
      newAmount, trace, s' := 0, [], s;
      PathStart(P.Machine(w), s);
      if !call.post { return 405, 0, trace, s'; }
      if call.user.None? { return 401, 0, trace, s'; }
      if call.body.None? { return 400, 0, trace, s'; }
      var req := call.body.value;
      if req.amount <= 0.0 { return 400, 0, trace, s'; }
      if req.currency !in L.SUPPORTED { return 400, 0, trace, s'; }
      var wallet := repo.GetWalletIDByUserID(call.user.value, lookup);
      if !wallet.Value? { return if wallet.NotFound? then 404 else 500, 0, trace, s'; }
      ghost var op := L.Deposit(wallet.value, req.currency, req.amount);
      AppliedKeepsRange(repo.balances, op);
      R.DepositOutcome(repo.balances, L.Key(wallet.value, req.currency), req.amount);
      var r := repo.Deposit(wallet.value, req.currency, req.amount, io);
      if !r.Value? {
        trace, s' := LedgerSteps(w, s, N.Call(call.user.value, "deposit", req.currency, req.amount), false);
        return if r.NotFound? then 404 else 500, 0, trace, s';
      }
      trace, s' := Report(call.user.value, "deposit", req.currency, req.amount, env, w, s);
      status, newAmount := 200, r.value;
    }

    method HandleWithdraw(call: Incoming<AmountCurrency>, lookup: bool, io: IO, env: EventEnv, ghost w: N.World,
        ghost s: N.Sys)
      returns (status: int, newAmount: int, ghost trace: seq<N.Action>, ghost s': N.Sys)
      requires InStep(w, s, env)
      modifies repo, if publisher == null then {} else {publisher.topic}
      ensures Path(P.Machine(w), s, trace, s') && (publisher != null ==> s'.log == publisher.topic.entries)
      ensures
        var was, now := old(repo.balances), repo.balances;
        if !call.post then status == 405 && now == was
        else if call.user.None? then status == 401 && now == was
        else if call.body.None? || call.body.value.amount <= 0.0 then status == 400 && now == was
        else if call.body.value.currency !in {"USD", "RUB", "EUR"} then status == 400 && now == was
        else if !lookup then status == 500 && now == was
        else if call.user.value !in repo.wallets then status == 404 && now == was
        else
          var k := L.Key(repo.wallets[call.user.value], call.body.value.currency);
          if k !in was || was[k] as real < call.body.value.amount then
            status == (if io.Ok? then 400 else 500) && now == was
          else
            var n := M.Round(was[k] as real - call.body.value.amount);
            if -M.LIMIT < n < M.LIMIT then
              && now == (if io.Failed? then was else was[k := n])
              && status == (if io.Ok? then 200 else 500) && (status == 200 ==> newAmount == n)
            else status == 500 && now == was
      ensures status != 200 ==> Published() == old(Published())
      ensures status == 200 ==> Reported(old(Published()), Published(), publisher,
        Event(env.id, call.user.value, "withdraw", call.body.value.amount, call.body.value.currency,
          env.createdAt), env.writes)
      ensures L.InRange(old(repo.balances)) ==> L.InRange(repo.balances)
    {
      hide Path, N.Step, Reported, L.Apply;
      newAmount, trace, s' := 0, [], s;
      PathStart(P.Machine(w), s);
      if !call.post { return 405, 0, trace, s'; }
      if call.user.None? { return 401, 0, trace, s'; }
      if call.body.None? { return 400, 0, trace, s'; }
      var req := call.body.value;
      if req.amount <= 0.0 { return 400, 0, trace, s'; }
      if req.currency !in L.SUPPORTED { return 400, 0, trace, s'; }
      var wallet := repo.GetWalletIDByUserID(call.user.value, lookup);
      if !wallet.Value? { return if wallet.NotFound? then 404 else 500, 0, trace, s'; }
      ghost var op := L.Withdraw(wallet.value, req.currency, req.amount);
      AppliedKeepsRange(repo.balances, op);
      R.WithdrawOutcome(repo.balances, L.Key(wallet.value, req.currency), req.amount);
      var r := repo.Withdraw(wallet.value, req.currency, req.amount, io);
      if !r.Value? {
        trace, s' := LedgerSteps(w, s, N.Call(call.user.value, "withdraw", req.currency, req.amount), false);
        return if r.InsufficientFunds? then 400 else if r.NotFound? then 404 else 500, 0, trace, s';
      }
      trace, s' := Report(call.user.value, "withdraw", req.currency, req.amount, env, w, s);
      status, newAmount := 200, r.value;
    }

    /** rate is the rate the exchange was attempted at, if it came to that. */
    method HandleExchange(call: Incoming<ExchangeBody>, lookup: bool, rates: RateEnv, db: R.ExchangeEnv, env: EventEnv,
        ghost w: N.World, ghost s: N.Sys)
      returns (status: int, response: Option<ExchangeResponse>, ghost rate: X.Result<real>, ghost trace: seq<N.Action>,
        ghost s': N.Sys)
      requires InStep(w, s, env)
      modifies repo, if publisher == null then {} else {publisher.topic}, if client == null then {} else {client}
      ensures Path(P.Machine(w), s, trace, s') && (publisher != null ==> s'.log == publisher.topic.entries)
      ensures
        var was, now := old(repo.balances), repo.balances;
        if !call.post then status == 405 && now == was
        else if call.user.None? then status == 401 && now == was
        else if call.body.None? || call.body.value.amount <= 0.0 then status == 400 && now == was
        else
          var b := call.body.value;
          if b.from == b.to then status == 400 && now == was
          else if b.from !in {"USD", "RUB", "EUR"} || b.to !in {"USD", "RUB", "EUR"} then status == 400 && now == was
          else if !lookup then status == 500 && now == was
          else if call.user.value !in repo.wallets then status == 404 && now == was
          else if client == null then status == 503 && now == was
          else
            && rate == X.RateOf(old(client.Contents()), client.ttl, client.hasClient, rates.now, rates.rivals,
                 rates.section, b.from, b.to, rates.pair)
            && client.Contents() == X.CacheAfter(old(client.Contents()), client.ttl, client.hasClient, rates.now,
                 rates.rivals, rates.section)
            && (rate.Error? ==> status == 400 && now == was)
      // With a rate: the rows of the two currencies, and no others.
      ensures rate.Found? ==>
        && call.body.Some? && call.user.Some? && call.user.value in repo.wallets
        && var was, now, b := old(repo.balances), repo.balances, call.body.value;
           var kf, kt := L.Key(repo.wallets[call.user.value], b.from), L.Key(repo.wallets[call.user.value], b.to);
           if !db.begin || !db.debit then status == 500 && now == was
           else if kf !in was || was[kf] as real < b.amount then status == 400 && now == was
           else
             var n, credit := M.Round(was[kf] as real - b.amount), C.Credited(b.amount, rate.value);
             if !M.Fits(n) || (kt in was && !M.Fits(was[kt] + credit)) then status == 500 && now == was
             else if !db.credit || db.commit.Failed? then status == 500 && now == was
             else
               && now == (if kt in was then was[kf := n][kt := was[kt] + credit] else was[kf := n])
               && status == (if db.commit.Ok? && db.read then 200 else 500)
      ensures response == if status != 200 then None else
        Some(ExchangeResponse(rate.value, C.Credited(call.body.value.amount, rate.value),
          L.Balances(repo.balances, repo.wallets[call.user.value]), rate.source))
      ensures status != 200 ==> Published() == old(Published())
      ensures status == 200 ==> rate.Found? && Reported(old(Published()), Published(), publisher,
        Event(env.id, call.user.value, "exchange", call.body.value.amount, call.body.value.from,
          env.createdAt), env.writes)
      ensures L.InRange(old(repo.balances)) && (rate.Found? ==> rate.value >= 0.0) ==> L.InRange(repo.balances)
    {
      hide Path, N.Step, Reported, L.Apply, L.InRange, C.Credited, X.RateOf, X.CacheAfter, M.Round, M.Fits, L.Balances;
      response, rate, trace, s' := None, X.Error, [], s;
      PathStart(P.Machine(w), s);
      if !call.post { return 405, None, X.Error, trace, s'; }
      if call.user.None? { return 401, None, X.Error, trace, s'; }
      if call.body.None? { return 400, None, X.Error, trace, s'; }
      var req := call.body.value;
      if req.amount <= 0.0 { return 400, None, X.Error, trace, s'; }
      if req.from == req.to { return 400, None, X.Error, trace, s'; }
      if req.from !in L.SUPPORTED || req.to !in L.SUPPORTED { return 400, None, X.Error, trace, s'; }
      var wallet := repo.GetWalletIDByUserID(call.user.value, lookup);
      if !wallet.Value? { return if wallet.NotFound? then 404 else 500, None, X.Error, trace, s'; }
      if client == null { return 503, None, X.Error, trace, s'; }
      var found := client.GetRateWithSource(req.from, req.to, rates.now, rates.rivals, rates.section, rates.pair);
      if found.Error? { return 400, None, X.Error, trace, s'; }
      rate := found;
      status, response, trace, s' :=
        ExchangeAtRate(call.user.value, wallet.value, req, found.value, found.source, db, env, w, s);
    }

    /** The second half of HandleExchange: round the credit, write the ledger, then publish. */
    method ExchangeAtRate(user: int, wallet: int, req: ExchangeBody, rate: real, source: X.Source, db: R.ExchangeEnv,
        env: EventEnv, ghost w: N.World, ghost s: N.Sys)
      returns (status: int, response: Option<ExchangeResponse>, ghost trace: seq<N.Action>, ghost s': N.Sys)
      requires InStep(w, s, env) && req.amount > 0.0 && req.from != req.to
      modifies repo, if publisher == null then {} else {publisher.topic}
      ensures Path(P.Machine(w), s, trace, s') && (publisher != null ==> s'.log == publisher.topic.entries)
      ensures
        var was, now, kf, kt := old(repo.balances), repo.balances, L.Key(wallet, req.from), L.Key(wallet, req.to);
        if !db.begin || !db.debit then status == 500 && now == was
        else if kf !in was || was[kf] as real < req.amount then status == 400 && now == was
        else
          var n, credit := M.Round(was[kf] as real - req.amount), C.Credited(req.amount, rate);
          if !M.Fits(n) || (kt in was && !M.Fits(was[kt] + credit)) then status == 500 && now == was
          else if !db.credit || db.commit.Failed? then status == 500 && now == was
          else
            && now == (if kt in was then was[kf := n][kt := was[kt] + credit] else was[kf := n])
            && status == (if db.commit.Ok? && db.read then 200 else 500)
      ensures response == if status != 200 then None else
        Some(ExchangeResponse(rate, C.Credited(req.amount, rate), L.Balances(repo.balances, wallet), source))
      ensures status != 200 ==> Published() == old(Published())
      ensures status == 200 ==> Reported(old(Published()), Published(), publisher,
        Event(env.id, user, "exchange", req.amount, req.from, env.createdAt), env.writes)
      ensures L.InRange(old(repo.balances)) && rate >= 0.0 ==> L.InRange(repo.balances)
    {
      hide Path, N.Step, Reported, L.Apply, C.Credited, M.Round, M.Fits, L.Balances, L.InRange;
      response := None;
      var exchanged := C.Credited(req.amount, rate);
      CreditIsSane(repo.balances, L.Exchange(wallet, req.from, req.to, req.amount, exchanged as real), req.amount,
        rate);
      WholeCreditMoves(repo.balances, wallet, req.from, req.to, req.amount, exchanged);
      var r := repo.Exchange(wallet, req.from, req.to, req.amount, exchanged as real, db);
      if !r.Value? {
        trace, s' := LedgerSteps(w, s, N.Call(user, "exchange", req.from, req.amount), false);
        return if r.InsufficientFunds? then 400 else 500, None, trace, s';
      }
      trace, s' := Report(user, "exchange", req.from, req.amount, env, w, s);
      status, response := 200, Some(ExchangeResponse(rate, exchanged, r.value, source));
    }
  }

  /** An exchange with a whole credit, in terms of its two rows. */
  lemma WholeCreditMoves(rows: L.Rows, wallet: int, from: string, to: string, amount: real, credit: int)
    requires from != to
    ensures
      var kf, kt := L.Key(wallet, from), L.Key(wallet, to);
      L.Apply(rows, L.Exchange(wallet, from, to, amount, credit as real)) ==
        if kf !in rows || rows[kf] as real < amount then L.Refused
        else
          var n := M.Round(rows[kf] as real - amount);
          if !M.Fits(n) || (kt in rows && !M.Fits(rows[kt] + credit)) then L.Overflowed
          else L.Done(if kt in rows then rows[kf := n][kt := rows[kt] + credit] else rows[kf := n])
  {
    hide M.Round, M.Fits, L.Apply;
    L.ExchangeMoves(rows, wallet, from, to, amount, credit as real);
    var kt := L.Key(wallet, to);
    if kt in rows {
      assert rows[kt] as real + credit as real == (rows[kt] + credit) as real;
      M.RoundWhole(rows[kt] + credit);
    }
  }

  /** With a non-negative rate the credit is non-negative, so the exchange keeps the range. */
  lemma CreditIsSane(rows: L.Rows, op: L.Op, amount: real, rate: real)
    requires op.Exchange? && amount > 0.0 && op.debit == amount && op.credit == C.Credited(amount, rate) as real
    ensures rate >= 0.0 && L.InRange(rows) ==> L.InRange(R.Applied(rows, op))
  {
    if rate >= 0.0 && L.InRange(rows) {
      C.NonNegativeProduct(amount, rate);
      AppliedKeepsRange(rows, op);
    }
  }
}
