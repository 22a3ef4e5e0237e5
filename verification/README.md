# Wallet, notification and page-view analytics: a verified model

Five linked components of the system are modelled and proved in Dafny 4.11. Check the whole
project with `dafny verify dfyconfig.toml`.

| component | files | what is proved about it |
|---|---|---|
| Ledger (gw-currency-wallet) | `Money`, `Ledger`, `LedgerConcurrency`, `AuthRepo`, `Handlers`, `ExchangeChain` | serialisability of interleaved transactions, range and drift of every balance, what each endpoint does to the table, the error of a chain of exchanges |
| Rates (gw-exchanger and the wallet's client) | `RateIndex`, `RateCache`, `ExchangerClient` | the bulk map agrees with the single lookup, single flight, bounded staleness, copies really are copies |
| Large transactions (publisher, Kafka, consumer, Mongo) | `Publisher`, `Consumption`, `Notification`, `NotificationLoss`, `NotificationConsumer` | effectively-once storage, at most one document per call, and exactly which entries can be left behind |
| Page-view ingestion (pv-aggregator) | `PageView`, `Buffer`, `Ingestion`, `IngestionGuarantees`, `IngestionWatermark`, `IngestionProduced`, `IngestionOrder`, `AggregatorConsumer` | exactly which messages a crash can lose, exactly when "committed" means "stored", the metrics balance, the order of messages |
| Aggregation (ClickHouse) | `Aggregation`, `AggregationBounds`, `PipelineTotals` | two levels of materialised views and background merges in any order agree with one direct grouping |

## How the models are built

Concurrency and failure are state machines with a total `Step` function: an action that is not
possible in a state changes nothing. `Exec` runs any sequence of actions, so a lemma about
`Exec(acts)` for all `acts` speaks about every interleaving and every reachable state. An invariant is
proved kept by every step, and the theorems follow from it.

Code that works in place is a class with the source's fields and loops. The buffer, the rate maps, the
repository, the topic and the Mongo store are objects on the heap. The loops of the two consumers, of the
publisher and of the exchanger client are proved to take steps of their machine only (`Runs.Path`), so the
theorems about runs hold of them too, and the aggregator's are proved not to overlap their own flushes; in addition each contract says, in terms of
the rows, maps and messages themselves, what the method computes, so a method that skipped its work would not meet it.

Amounts are exact rationals in hundredths of a currency unit, stored balances are whole hundredths, and
storing rounds halves away from zero and fails from 10^18 hundredths on (`NUMERIC(18,2)`).

### Assumptions about what is outside

- A request to Postgres, Kafka, Mongo or ClickHouse succeeds, fails, or fails after having been applied. A failed Mongo
  request may take effect at any later time, and a written Kafka message may arrive any number of times, at any time
  after the first write began. A failed `page_views_raw` batch may leave any of its rows behind.
- A Kafka commit sets a partition's offset to one past the highest offset given, even if that moves it back. An
  errored commit may have taken effect for some partitions only.
- There is one consumer of each topic, and logs only grow. A message is decoded to the event it encodes, or not at all.
- The database evaluates an `UPDATE` on the committed rows and the transaction's own writes, and waits while another transaction has
  written the row; a guard that already fails on the committed value refuses without waiting.
- The wallet's rows all exist and rates are non-negative where a theorem says so; both conditions are shown to be needed
  (`Ledger.CreditLostExactlyWhenRowMissing`, `Ledger.CreditKeepsRangeExactly`).
- Transaction ids drawn for different calls differ, and nobody else puts a call's id into the topic (`Notification.IdsAreOwn`).
- The clock of the rate cache is monotone; `uniq` is exact.

### Where the code and its own words disagree

The model follows the code.

- README.md:276 and pv-aggregator/internal/kafka/consumer.go:212 speak of at-least-once. The code can lose a buffered message when a dead-letter
  commit or a second flush commits past it and the process then crashes. The exact conditions a reader can check beforehand: with one flusher
  (flush interval 0, and Close after Run) a partition is safe over all runs if and only if none of its valid messages precedes an invalid one
  (`IngestionWatermark.AtLeastOnceExactly`, met by Run followed by Close in `AggregatorConsumer.Consumer.RunThenClose`); with overlapping flushes if and only if
  it has no valid message at all (`IngestionWatermark.OverlapNeverSafe`). For a partition that holds n messages so far the conditions speak of those n
  only (`IngestionProduced`). pv-aggregator/cmd/app/main.go cancels, sleeps two seconds and closes without waiting for Run, so a flush still retrying
  inside Run can overlap the one of Close even with interval 0; that run is not a one-flusher run. `IngestionGuarantees.LossExactly` says what a given run has lost.
- gw-currency-wallet/internal/kafka/publisher.go:36 announces a pause of backoff times 2 to the attempt; the pause before attempt k (counting from 0) is
  backoff times 2 to the k-1 (`Publisher.Publisher.Backoff`).
- The view `page_views_agg_hour_read` does not add up rows that have not been merged yet. What it shows is true exactly
  when the hour is held in a single row (`AggregationBounds.ReadViewTrueExactlyWhenMerged`), which merging can always bring about (`AggregationBounds.EnoughMergesMakeReadViewTrue`).
- README.md:115 promises that no duplicates are created, and none are; but an entry that used up its five insert attempts is left behind
  once a later entry's offset is saved. The exact condition a reader can check on the topic: an entry can never be left behind if and only if every
  later entry that decodes carries its id (`NotificationLoss.NeverLostExactly`); `NotificationLoss.StoredOnlyBy` says which later steps can still store it.
- The credit of an exchange does not look at the number of rows it changed: a missing row means the debit commits alone.

## Model

| member | source | states |
|---|---|---|
| Money.RoundIsNearestAwayFromZero | migrations/004_balances.sql:4 | storing and math.Round pick the nearest whole hundredth, and of two equally near ones the larger in magnitude, and no other number |
| Ledger.DepositAdds | gw-currency-wallet/internal/repo_auth.go:119-134 | a deposit is refused exactly when its row is missing, succeeds exactly when the rounded sum fits, and changes only that row |
| Ledger.WithdrawTakes | gw-currency-wallet/internal/repo_auth.go:136-151 | a withdrawal is refused exactly when the row is missing or holds less than the unrounded amount; otherwise it changes only that row |
| Ledger.ExchangeMoves | gw-currency-wallet/internal/repo_auth.go:153-188 | an exchange succeeds exactly when the debit is covered and both results fit; it changes the two rows and nothing else |
| Ledger.CreditLostExactlyWhenRowMissing | gw-currency-wallet/internal/repo_auth.go:173-181 | for any debit and the whole-hundredth credit the handler computes, what the two rows hold together changes by the credit less what was taken exactly when the credited row exists or there is nothing to credit; otherwise the debit commits alone |
| Ledger.OverflowingCreditUndoesDebit | gw-currency-wallet/internal/repo_auth.go:158-181 | an exchange whose credit overflows leaves the whole table as it was |
| Ledger.ReplayKeepsRange | gw-currency-wallet/internal/repo_auth.go:119-188 | every balance any history of accepted requests can produce is at least 0 and below 10^16 units, though no constraint says so |
| Ledger.CreditKeepsRangeExactly | gw-currency-wallet/internal/grpcclient/exchanger_client.go:136-138 | over all in-range tables, an exchange keeps the range exactly when its credit does not round below zero (or is so negative that it always overflows) |
| Ledger.StatementsAskTheRequest | gw-currency-wallet/internal/repo_auth.go:119-188 | the statements an operation issues ask each row for exactly what the request asked for |
| Ledger.DriftBound | gw-currency-wallet/internal/repo_auth.go:119-188 | after any committed history a balance is within half a hundredth per update of the exact sum of the requests, and equal to it when all amounts are whole hundredths |
| Ledger.DriftIsAttained | migrations/004_balances.sql:4 | the drift bound is tight: n deposits of half a hundredth drift by n halves |
| LedgerConcurrency.StepKeepsInv | gw-currency-wallet/internal/repo_auth.go:119-188 | every statement, commit, abort and read of any transaction keeps the committed table a replay of the commit order, locks exclusive, and every answer justified |
| LedgerConcurrency.WaitsExactly | gw-currency-wallet/internal/repo_auth.go:158-181 | an UPDATE waits exactly when it would write a row that another running transaction has written; on other rows transactions do not hold each other up |
| LedgerConcurrency.OthersStayConsistent | gw-currency-wallet/internal/repo_auth.go:158-181 | a commit does not change what other running transactions' statements have done |
| LedgerConcurrency.Serializable | gw-currency-wallet/internal/repo_auth.go:119-188 | for any interleaving with any aborts, the committed balances are the sequential replay of the committed operations in commit order, each succeeding at its turn, and no row is ever added or removed |
| LedgerConcurrency.ReadsSeePrefixes | gw-currency-wallet/internal/repo_auth.go:91-117 | every balance sheet is that of exactly the operations committed at its read step, so no debit is seen without its credit, and no later sheet is of a shorter prefix |
| LedgerConcurrency.RefusalsAreRight | gw-currency-wallet/internal/repo_auth.go:144-151 | a refused operation, run alone on exactly the operations committed at its refused statement, is refused too; that moment is not before the transaction began |
| LedgerConcurrency.ReceiptsAreRight | gw-currency-wallet/internal/repo_auth.go:119-151 | the amount a concurrent deposit or withdrawal returns is its row's value in the replay just after its own commit |
| LedgerConcurrency.CommitGivesReceipt | gw-currency-wallet/internal/repo_auth.go:119-151 | every deposit or withdrawal that commits returns an amount |
| LedgerConcurrency.EndsAreRecorded | gw-currency-wallet/internal/repo_auth.go:119-188 | a transaction ends only by commit, abort, overflow or refusal, and commits, refusals and readings are all recorded, so the theorems above miss none |
| LedgerConcurrency.ConcurrentBalancesInRange | gw-currency-wallet/internal/repo_auth.go:136-188 | no interleaving takes a committed or read balance out of range |
| LedgerConcurrency.ConcurrentDrift | gw-currency-wallet/internal/repo_auth.go:119-188 | both halves of the drift bound hold however transactions interleave: half a hundredth per update, and nothing when all committed amounts are whole hundredths |
| AuthRepo.Repo.GetWalletIDByUserID | gw-currency-wallet/internal/repo_auth.go:76-89 | the wallet of the user, "not found", or an error, each exactly when the source says so |
| AuthRepo.Repo.GetBalances | gw-currency-wallet/internal/repo_auth.go:91-117 | whatever order the rows arrive in, the answer has each row of the wallet and 0 for a supported currency without one |
| AuthRepo.Repo.Deposit | gw-currency-wallet/internal/repo_auth.go:119-134 | the table changes as the ledger's deposit says unless the request failed; a returned amount is the stored one; "not found" exactly when the row is missing |
| AuthRepo.Repo.Withdraw | gw-currency-wallet/internal/repo_auth.go:136-151 | the table changes as the ledger's withdrawal says unless the request failed; "insufficient funds" exactly when the guard matched no row |
| AuthRepo.Repo.Exchange | gw-currency-wallet/internal/repo_auth.go:153-188 | both updates or neither, under failures at every point; "insufficient funds" means nothing changed; a failure after the commit still reports an error |
| AuthRepo.Repo.CreateBalancesForWallet | gw-currency-wallet/internal/repo_auth.go:63-74 | succeeds exactly when all three rows are new and no insert fails; a failure leaves exactly the rows before the first failing insert, and its own if it was applied all the same |
| AuthRepo.CallIsTransaction | gw-currency-wallet/internal/repo_auth.go:153-188 | a call that meets no other transaction is a run of the concurrent machine and leaves the table the repository's contracts name |
| Handlers.Handler.HandleDeposit | gw-currency-wallet/internal/handler_balance.go:55-110 | for every request the status and the table after it, in the order of the guards: 405, 401, 400, 500 or 404 with nothing changed, else the row raised by the rounded sum when it exists and fits; the event only with 200; balances stay in range |
| Handlers.Handler.HandleWithdraw | gw-currency-wallet/internal/handler_balance.go:112-171 | as for deposits, with 400 exactly when the row is missing or holds less than the unrounded amount |
| Handlers.Handler.HandleExchange | gw-currency-wallet/internal/handler_exchange.go:60-144 | for every request the status and the table: guards as above, 503 without a client, 400 without a rate; with one, 400 exactly when the debit statement finds no row of the first currency that covers the amount, and else the first currency down by the amount, rounded, and the second up by the credit, or nothing at all; 200 only when both are committed and read back |
| Handlers.Handler.ExchangeAtRate | gw-currency-wallet/internal/handler_exchange.go:118-143 | the same for the part after the rate lookup: ledger first, event only on success |
| Handlers.Handler.Report | gw-currency-wallet/internal/handler_balance.go:105-107 | after a ledger success the topic gains copies of one event at or above the threshold and nothing below it |
| Handlers.ReportedExactly | gw-currency-wallet/internal/kafka/publisher.go:87-134 | what a success adds to the topic, without recursion: nothing without a publisher or below the threshold, else copies of the one event and nothing more, as many as the attempts up to the first acknowledged one left there |
| Handlers.CreditIsSane | gw-currency-wallet/internal/handler_exchange.go:118 | a non-negative rate makes the rounded credit one that keeps the range |
| Handlers.WholeCreditMoves | gw-currency-wallet/internal/repo_auth.go:153-188 | with the whole-hundredth credit the handler computes, an exchange is refused, fails or moves the two rows exactly as their old values say; the credit itself is added without rounding |
| ExchangeChain.CreditedIsNearest | gw-currency-wallet/internal/handler_exchange.go:118 | the credit is the whole hundredth nearest to amount times rate, ties away from zero, and no other |
| ExchangeChain.ChainBound | gw-currency-wallet/internal/handler_exchange.go:118-120 | spending each credit in the next exchange ends within half a hundredth, times the product of the later rates, per hop of the exact product |
| ExchangeChain.OneHop | gw-currency-wallet/internal/handler_exchange.go:118-120 | a covered exchange at a non-negative rate is never refused, and afterwards the credited row holds at least the credit |
| ExchangeChain.ChainNeverShort | gw-currency-wallet/internal/repo_auth.go:153-188 | a chain of exchanges started with enough money never runs into insufficient funds and ends with at least the chain's result in the last row |
| RateIndex.AllRates | gw-exchanger/internal/storage/postgres/rates_repo.go:20-38 | a key is in the map exactly when some row is FROM, an underscore, TO; its rate is that of the last such row |
| RateIndex.IndexKeepsLast | gw-exchanger/internal/storage/postgres/rates_repo.go:29-36 | of the rows with one key the last decides |
| RateIndex.KeyReadsBack | gw-exchanger/internal/storage/postgres/rates_repo.go:35 | a key of two codes without an underscore determines both codes |
| RateIndex.IndexAgrees | gw-exchanger/internal/storage/postgres/rates_repo.go:20-52 | with unique pairs and codes without an underscore, the map and the single lookup agree on every query, in presence and value |
| RateIndex.UnderscoreMisleads | gw-exchanger/internal/storage/postgres/rates_repo.go:35 | a code with an underscore makes its row answer for a pair the table does not have |
| RateIndex.CodesExactly | gw-exchanger/migrations/001_init.sql:1-7 | every table over a set of pairs agrees on every query exactly when no code in the set has an underscore |
| RateCache.StepKeeps | gw-currency-wallet/internal/grpcclient/exchanger_client.go:59-103 | every step of every caller keeps the locks exclusive, the cache equal to the last fetch, fetches a TTL apart, and every answer backed by a reading of the table |
| RateCache.SingleFlight | gw-currency-wallet/internal/grpcclient/exchanger_client.go:72-102 | with any number of callers at most one all-rates fetch is under way, and recorded cache times are at least one TTL apart |
| RateCache.BoundedStaleness | gw-currency-wallet/internal/grpcclient/exchanger_client.go:130-156 | every returned rate is the table's rate for the pair at an instant of the call itself, within its own fetch or fallback, or less than the TTL plus the filling fetch's duration before the cache check the call made |
| RateCache.ExecTimely | gw-currency-wallet/internal/grpcclient/exchanger_client.go:59-156 | in every run the check, fetch, store and fallback a call remembers lie between its entry and its answer |
| RateCache.CacheStaysWithoutFetch | gw-currency-wallet/internal/grpcclient/exchanger_client.go:83-97 | however a run goes on without a successful fetch, with failed fetches, hits and lookups, the cached rates and their time stay as they were |
| ExchangerClient.RateMap.Copy | gw-currency-wallet/internal/grpcclient/exchanger_client.go:62-65 | the copy loop builds a new object with the same entries |
| ExchangerClient.ExchangerClient.CheckUnderReadLock | gw-currency-wallet/internal/grpcclient/exchanger_client.go:60-70 | a copy exactly when the cache is fresh |
| ExchangerClient.ExchangerClient.RefreshUnderWriteLock | gw-currency-wallet/internal/grpcclient/exchanger_client.go:72-102 | the cache changes only by a successful fetch on a stale cache; what is handed out is a fresh object |
| ExchangerClient.ExchangerClient.GetAllRates | gw-currency-wallet/internal/grpcclient/exchanger_client.go:59-103 | a hit answers the cached map from "cache" and changes nothing; a miss that is alone answers the reply from "grpc" and stores it with its time, or fails and changes nothing, or is empty without a client; and in general, with any number of other callers' refreshes between the two checks |
| ExchangerClient.ExchangerClient.GetRateWithSource | gw-currency-wallet/internal/grpcclient/exchanger_client.go:130-156 | the rate under FROM_TO in the answered map whatever its sign, else a positive rate of the single-pair call for exactly this pair, else an error |
| ExchangerClient.ExchangerClient.ScribbleOnReturnedMap | gw-currency-wallet/internal/grpcclient/exchanger_client.go:98-102 | whatever a caller writes into a returned map, the cache stays as the call left it |
| ExchangerClient.RivalRefreshIsUsed | gw-currency-wallet/internal/grpcclient/exchanger_client.go:72-81 | if another caller refreshed after this one missed and less than a TTL has passed, this one answers from the cache without asking |
| ExchangerClient.ReadSection | gw-currency-wallet/internal/grpcclient/exchanger_client.go:60-70 | the read-locked section is steps of the concurrent machine |
| ExchangerClient.WriteSection | gw-currency-wallet/internal/grpcclient/exchanger_client.go:72-102 | the write-locked section is steps of the concurrent machine, with the cache and answer the class's contracts name |
| ExchangerClient.WholeCall | gw-currency-wallet/internal/grpcclient/exchanger_client.go:59-103 | a whole GetAllRates is a run of the concurrent machine: after the read-locked section, the rivals' sections and its own, the caller holds the rates and the cache is the one the class's contract names |
| Publisher.Publisher.constructor | gw-currency-wallet/internal/kafka/publisher.go:48-53 | non-positive settings become three attempts and 200 ms, positive ones are kept |
| Publisher.Publisher.Backoff | gw-currency-wallet/internal/kafka/publisher.go:108-111 | the inner loop doubles the pause once per attempt already repeated |
| Publisher.TotalPause | gw-currency-wallet/internal/kafka/publisher.go:106-118 | n pauses, those of n + 1 attempts, take base * (2^n - 1) in all |
| Publisher.CopiesAdd | gw-currency-wallet/internal/kafka/publisher.go:106-132 | each attempt leaves its own copies, and the copies of successive attempts add up |
| Publisher.Publisher.WriteWithRetry | gw-currency-wallet/internal/kafka/publisher.go:105-133 | published exactly when some attempt before the limit and the context's end is acknowledged; the attempts are those up to the first such one, or all; every copy in the topic is the one event |
| Publisher.Publisher.Publish | gw-currency-wallet/internal/kafka/publisher.go:87-134 | nothing below the threshold; otherwise one event under one id, published exactly when some attempt before the limit and the context's end is acknowledged, as steps of the end-to-end machine |
| Consumption.StepKeeps | gw-notification/internal/consumer/consumer.go:186-217 | every step of the consumer keeps all entries before its position, and before any offset saved or still on its way, stored, undecodable or given up |
| Consumption.GrowKeeps | gw-notification/internal/consumer/consumer.go:186-217 | and so does a growing topic |
| Consumption.InsertUniqueHas | gw-notification/internal/storage/mongo/mongo.go:43-67 | an insert under the unique index leaves the id present, loses no document and keeps ids unique |
| Consumption.CountUnique | gw-notification/internal/storage/mongo/mongo.go:43-51 | under the unique index an id is stored once or not at all |
| Notification.GivenUpExactly | gw-notification/internal/consumer/consumer.go:255-280 | an entry counts as given up exactly when some step of the run was its fifth failed attempt |
| Notification.EffectivelyOnce | gw-notification/internal/consumer/consumer.go:89-122 | over every run with reconnects, crashes, failed or late requests, an entry below the saved offset is stored exactly once, or does not decode, or used up its five attempts |
| Notification.LedgerCameFirst | gw-currency-wallet/internal/handler_balance.go:94-107 | a call that publishes had its ledger success at an earlier step |
| Notification.NothingBeforeWrite | gw-currency-wallet/internal/kafka/publisher.go:87-120 | until a call's first write its id is in no entry and no document |
| Notification.EndToEnd | gw-currency-wallet/internal/kafka/publisher.go:87-134 | a call yields at most one document, with its own user, kind, amount and currency, only from the threshold on, within the attempt limit, and only after its ledger success, when its id was nowhere yet |
| Notification.AckedEventIsStoredOnce | gw-notification/internal/consumer/consumer.go:210-215 | an acknowledged event is in the topic, and is stored exactly once when the saved offset has passed an entry of it that was not given up |
| NotificationLoss.NeverLostExactly | gw-notification/internal/consumer/consumer.go:186-217 | the exact condition for an entry of a topic: over all runs, below the saved offset means stored if and only if every later entry that decodes carries the same id |
| NotificationLoss.TopicNeverLostExactly | gw-notification/internal/consumer/consumer.go:186-217 | for a whole topic: no run leaves a decodable entry behind unstored if and only if all decodable entries carry one id |
| NotificationLoss.GivenUpEntryIsLost | gw-notification/internal/consumer/consumer.go:210-216 | from any reachable state about to read an unstored entry, with an entry of another id anywhere later, the saved offset can pass it with its event not stored |
| NotificationLoss.SavedIsJustStored | gw-notification/internal/consumer/consumer.go:210-215 | the offset saved, every offset still on its way, and the one about to be saved lie just past an entry that decodes and is stored |
| NotificationLoss.StoredOnlyBy | gw-notification/internal/storage/mongo/mongo.go:55-67 | an id that is not stored becomes stored by exactly two kinds of step: a failed request for it taking effect late, or an answered insert of an entry with that id |
| NotificationLoss.PassedOnlyByReconnecting | gw-notification/internal/consumer/consumer.go:186-217 | within a connection the consumer never goes back, so an entry it has passed is read again only after a reconnect |
| NotificationLoss.SavedOffsetCanBecome | gw-notification/internal/storage/mongo/mongo.go:85-90 | the saved offset is overwritten: from any reachable state it can become the one after any entry of the topic that decodes |
| NotificationLoss.NeverMovesBackExactly | gw-notification/internal/storage/mongo/mongo.go:85-90 | the exact condition: over all runs on a topic the saved offset never decreases if and only if the topic has at most one entry that decodes |
| NotificationConsumer.Store.InsertLargeTransaction | gw-notification/internal/storage/mongo/mongo.go:55-67 | inserted, duplicate or error, and what the collection holds after each, including an error after the insert took effect |
| NotificationConsumer.Store.GetConsumerOffset | gw-notification/internal/storage/mongo/mongo.go:69-83 | the stored offset, 0 when there is none, nothing on an error |
| NotificationConsumer.Store.SetConsumerOffset | gw-notification/internal/storage/mongo/mongo.go:85-90 | the offset is overwritten whatever it was, unless the request failed without effect |
| NotificationConsumer.Consumer.SaveWithRetrySimple | gw-notification/internal/consumer/consumer.go:255-280 | true exactly when one of at most five attempts before the context's end is answered; then the id is stored |
| NotificationConsumer.Consumer.HandleFetched | gw-notification/internal/consumer/consumer.go:201-215 | an undecodable entry is skipped without saving an offset; a stored one moves the saved offset to just past it |
| NotificationConsumer.Consumer.RunWithReaderAndSaveOffset | gw-notification/internal/consumer/consumer.go:186-217 | the connection ends only on EOF, with the context, or with the messages, and goes on after an entry that was given up; every entry delivered and saved has its id stored; the offset left saved is one past the last entry saved whose offset request took effect, or the old one |
| NotificationConsumer.Consumer.Connection | gw-notification/internal/consumer/consumer.go:96-110 | a reader starts at the saved offset, or at the beginning when that cannot be read or set |
| NotificationConsumer.Consumer.RunSimpleConsumer | gw-notification/internal/consumer/consumer.go:89-122 | over any sequence of connections, everything below the offset left saved is stored exactly once, undecodable or given up |
| NotificationConsumer.SavedOverInTurn | gw-notification/internal/consumer/consumer.go:89-122 | connections follow one another, each from what the ones before it saved, or from the beginning |
| NotificationConsumer.HealthyConnectionCatchesUp | gw-notification/internal/consumer/consumer.go:186-217 | a long enough connection without failures saves the end of the topic from wherever it starts |
| PageView.ConvertedRow | pv-aggregator/internal/clickhouse/repo.go:93-127 | a valid event becomes a row of its own page, user, region, time and date and the message's partition and offset, with the 32-bit duration exact precisely below 2^32 and the bounce flag of short or bounced views |
| PageView.HourTotalsCountEvents | pv-aggregator/internal/kafka/consumer.go:188-209 | from messages to the hour table: whatever the blocks and merges, an hour and page add up to exactly what its well-formed views are worth; a malformed message counts nowhere, each other one once and under its own time |
| PageView.HourUsersOfMessages | init/clickhouse-init.sql:66-77 | the distinct users of an hour and page in the raw rows are the users of the messages that decode, name the page and a user, have a positive duration and are dated in that hour |
| PageView.MinuteUsersCountMessages | init/clickhouse-init.sql:66-77 | from messages to the minute table: after any blocks and merges the merged unique_users of a minute and page are exactly those users |
| PageView.HourUniquesCountUsers | init/clickhouse-init.sql:81-92 | from messages to the hour table: after any merges the unique_users of an hour and page add up to those users, counted once per insert block |
| Buffer.Buffer.Add | pv-aggregator/internal/agg/buffer.go:36-51 | appends on the reused array and signals a flush exactly at the size limit |
| Buffer.Buffer.GetAndClear | pv-aggregator/internal/agg/buffer.go:53-66 | hands out everything in a new array and empties the buffer, whose array stays |
| Buffer.Buffer.PutBack | pv-aggregator/internal/agg/buffer.go:68-75 | prepends the batch; an empty buffer adopts the batch's own array |
| Buffer.BatchSurvivesAdds | pv-aggregator/internal/agg/buffer.go:36-66 | a batch handed to a flush is not overwritten by any later additions |
| BufferOrder.OneFlusherKeepsOrder | pv-aggregator/internal/kafka/consumer.go:273-294 | with one flusher, done, in flight and buffered messages together are the arrivals in order, over any failures |
| BufferOrder.ManyFlushersKeepMessages | pv-aggregator/internal/kafka/consumer.go:273-294 | with many flushers they are the arrivals as a multiset |
| BufferOrder.FinishInOrderExactly | pv-aggregator/internal/kafka/consumer.go:256-271 | with many flushers, given arrivals finish in order over all runs if and only if they are all the same |
| IngestionOrder.RunIsQueue | pv-aggregator/internal/kafka/consumer.go:118-306 | every run of the pipeline machine moves the current process's buffer and flushes as a run of the queue does |
| IngestionOrder.PipelineKeepsOrder | pv-aggregator/internal/kafka/consumer.go:273-294 | over every run with one flusher, what the process has finished, is flushing and buffers is exactly what it accepted, in order |
| IngestionOrder.PipelineKeepsMessages | pv-aggregator/internal/kafka/consumer.go:273-294 | over every run with any flushers, it is the same messages, each as often |
| IngestionOrder.PipelineOrderExactly | pv-aggregator/internal/kafka/consumer.go:256-294 | over all runs with overlapping flushes, what a process has finished is in the order it accepted it if and only if there is at most one valid message |
| Ingestion.PastLastBound | pv-aggregator/internal/kafka/consumer.go:297 | the committed position of a batch is the least one above all its offsets in the partition |
| Ingestion.CommitBatchExactly | pv-aggregator/internal/kafka/consumer.go:297 | a commit moves each partition of the batch to one past its highest offset there, forward or back, and no other |
| Ingestion.StepKeeps | pv-aggregator/internal/kafka/consumer.go:118-306 | every step, crash included, keeps each fetched valid message stored, in memory or dropped by a crash, and each invalid one recorded or still held |
| IngestionGuarantees.LossExactly | pv-aggregator/internal/kafka/consumer.go:118-186 | over every run, a valid message below the committed offset is neither stored nor in memory exactly when some crash caught it in memory only, already below the committed offset |
| IngestionGuarantees.CrashLosesExactly | pv-aggregator/internal/kafka/consumer.go:273-303 | what one crash adds to the missing messages, exactly |
| IngestionGuarantees.CrashFreeRunIsComplete | pv-aggregator/internal/kafka/consumer.go:118-186 | a run without a crash loses nothing |
| IngestionGuarantees.StartInvariant | pv-aggregator/internal/kafka/consumer.go:167 | commits may move back but never below where the process started, so what a crash dropped is never fetched again |
| IngestionGuarantees.InvalidNeverLost | pv-aggregator/internal/kafka/consumer.go:152-171 | in every run each invalid message below the committed offset has its processing_errors row |
| IngestionGuarantees.ErrorsNeverOutnumberSends | pv-aggregator/internal/kafka/consumer.go:214-228 | with the dead-letter queue enabled no message has more error rows than acknowledged sends |
| IngestionGuarantees.Accounting | pv-aggregator/internal/kafka/consumer.go:118-306 | in every reachable state, consumed = dead-lettered + inserted + buffered + in flight + inserted without a committed offset + held |
| IngestionWatermark.WatermarkAtLeastOnce | pv-aggregator/internal/kafka/consumer.go:256-303 | with one flusher and no valid message before an invalid one in the partition, every valid message below the committed offset is stored, over all crashes and restarts |
| IngestionWatermark.AtLeastOnceExactly | pv-aggregator/internal/kafka/consumer.go:118-186 | the exact condition: over all one-flusher runs, below the committed offset means stored for a partition if and only if none of its valid messages precedes an invalid one |
| IngestionWatermark.OverlapNeverSafe | pv-aggregator/internal/kafka/consumer.go:256-303 | over all runs, overlapping flushes included, it means stored for a partition if and only if the partition has no valid message at all |
| IngestionProduced.AtLeastOnceExactlyBelow | pv-aggregator/internal/kafka/consumer.go:118-186 | the one-flusher condition for a partition holding n messages so far: among those n, none of the valid ones precedes an invalid one |
| IngestionProduced.OverlapSafeExactlyBelow | pv-aggregator/internal/kafka/consumer.go:256-303 | the condition for any flushers and n messages: none of the valid ones precedes any other |
| IngestionWatermark.DlqCommitLosesExactly | pv-aggregator/internal/kafka/consumer.go:167 | from any reachable state, a dead-letter commit and a crash add to the missing messages exactly the valid ones in memory only that are in its partition or were at risk already |
| IngestionWatermark.FlushCommitLosesExactly | pv-aggregator/internal/kafka/consumer.go:296-303 | from any reachable state, committing one flush and a crash add exactly the valid messages in memory only below one past the flush's highest offset in their partition, or below the old committed offset where it has none |
| IngestionWatermark.EarlierValidIsLost | pv-aggregator/internal/kafka/consumer.go:152-171 | for any valid message before an invalid one there is a run without a single flush that loses it |
| IngestionWatermark.OverlappedValidIsLost | pv-aggregator/internal/kafka/consumer.go:256-303 | for any two valid messages of a partition there is a run with two overlapping flushes that loses the earlier one |
| AggregatorConsumer.Consumer.InsertRawBatch | pv-aggregator/internal/clickhouse/repo.go:37-68 | all rows are in the table on success; a failure may leave a first part of them |
| AggregatorConsumer.Consumer.InsertWithRetry | pv-aggregator/internal/kafka/consumer.go:308-335 | success exactly when one of at most five attempts before the context's end succeeds, and no attempt after it is made |
| AggregatorConsumer.Consumer.CommitOffsets | pv-aggregator/internal/kafka/consumer.go:296-303 | the batch's partitions are committed; rows are counted only when that is acknowledged |
| AggregatorConsumer.Consumer.Flush | pv-aggregator/internal/kafka/consumer.go:273-306 | an empty buffer is left alone; otherwise the batch is stored and committed, or back in front in order with the error counted |
| AggregatorConsumer.Consumer.FlushLoop | pv-aggregator/internal/kafka/consumer.go:256-271 | without a timer nothing happens; with one, what was buffered is stored and committed by the first flush whose insert succeeds, as that flush's commit says, and stays in order otherwise |
| AggregatorConsumer.Consumer.Close | pv-aggregator/internal/kafka/consumer.go:353-363 | the final flush stores, commits and counts what was buffered if one of its five attempts succeeds; otherwise the batch stays in memory only and nothing is committed |
| AggregatorConsumer.Consumer.SendToDlq | pv-aggregator/internal/kafka/consumer.go:214-218 | success means an acknowledged send, or a disabled queue |
| AggregatorConsumer.Consumer.InsertError | pv-aggregator/internal/clickhouse/repo.go:70-91 | success means a processing_errors row; a failure sends the message back to the start of the path |
| AggregatorConsumer.Consumer.HandleError | pv-aggregator/internal/kafka/consumer.go:214-228 | both writes in order, counted only when both succeed |
| AggregatorConsumer.Consumer.HandleErrorWithRetry | pv-aggregator/internal/kafka/consumer.go:230-254 | success exactly when one of ten attempts before the context's end has both writes succeed |
| AggregatorConsumer.Consumer.DeadLetter | pv-aggregator/internal/kafka/consumer.go:153-171 | the path ends exactly when some round succeeds, and the commit is then one past the message; until then the message is held and nothing is committed |
| AggregatorConsumer.Consumer.HandleNext | pv-aggregator/internal/kafka/consumer.go:132-185 | one message is fetched; a valid one ends last in the buffer, or at the size limit with everything buffered stored and committed when the insert succeeds; an invalid one ends recorded and committed, or held exactly when no round succeeds |
| AggregatorConsumer.Consumer.Run | pv-aggregator/internal/kafka/consumer.go:118-186 | over any messages and store behaviour: the loop stops early exactly at the first message that is invalid and has no succeeding round, and holds it; otherwise every partition is read as far as its messages go, the dead-letter counter grows by the invalid ones, each of them is recorded, and each valid one stored or buffered; every turn flushes and commits as its environment says; any missing message was lost by an earlier crash |
| AggregatorConsumer.Consumer.RunThenClose | pv-aggregator/internal/kafka/consumer.go:353-363 | without a flush timer, Run and then Close keep every run one-flusher, so every valid message below the committed offset is stored in each partition whose invalid messages come first; Close stores and commits what Run left buffered |
| AggregatorConsumer.ChainHandled | pv-aggregator/internal/kafka/consumer.go:118-186 | after any number of turns the dead-letter counter has grown by the invalid messages fetched, each is in processing_errors, and each valid one is stored or buffered |
| AggregatorConsumer.ProcessKeepsWatermark | pv-aggregator/internal/kafka/consumer.go:118-186 | a process whose flushes do not overlap continues a one-flusher run |
| AggregatorConsumer.ProcessLosesNothing | pv-aggregator/internal/kafka/consumer.go:118-186 | a process that has not crashed has lost nothing itself |
| Aggregation.GroupBySum | init/clickhouse-init.sql:66-92 | grouping keeps the sum of every summed column over any set of windows, in 64-bit arithmetic |
| Aggregation.HourOfMinute | init/clickhouse-init.sql:84-92 | truncating to the minute and then to the hour is truncating to the hour |
| Aggregation.BlockAgrees | init/clickhouse-init.sql:66-92 | what one insert adds to either table is the direct grouping of its block |
| Aggregation.MergeKeepsTotals | init/clickhouse-init.sql:25-52 | a background merge of any two parts keeps every total |
| Aggregation.AggregatesAgree | init/clickhouse-init.sql:66-92 | for any inserts and any order of merges, minute and hour rows add up to one direct grouping of all rows ever inserted |
| Aggregation.BlocksAreInserts | init/clickhouse-init.sql:66-92 | the rows the tables are compared with are those of every insert, in order |
| AggregationBounds.MinuteUsersExact | init/clickhouse-init.sql:66-77 | merged minute states hold exactly the distinct users of the minute |
| AggregationBounds.UniquesAreBlockUniques | init/clickhouse-init.sql:81-92 | summed hour uniques are the sum over insert blocks of each block's distinct users |
| AggregationBounds.AggregatesExact | init/clickhouse-init.sql:66-104 | with at most 2^32 views in the hour nothing wraps, bounces are at most views, and distinct users are at most summed uniques, which are at most views |
| AggregationBounds.HourRowsSound | init/clickhouse-init.sql:81-92 | every stored hour row, merged or not, has at least one view and no more bounces or users than views |
| AggregationBounds.BounceRateIsPercentage | init/clickhouse-init.sql:94-104 | the bounce rate shown for any row is between 0 and 100 |
| AggregationBounds.ReadViewTrueExactlyWhenMerged | init/clickhouse-init.sql:94-104 | every row the read view shows for an hour has the true view count exactly when the hour is one row, and then its average duration and bounce rate are the true ones |
| AggregationBounds.EnoughMergesMakeReadViewTrue | init/clickhouse-init.sql:94-104 | from any state there are merges after which an hour with data is one row and the view shows its true count |
| PipelineTotals.RawIsWritten | pv-aggregator/internal/clickhouse/repo.go:37-68 | the raw table is the multiset of what the run's insert attempts have written, ambiguous ones included |
| PipelineTotals.HourTotalsCountRaw | init/clickhouse-init.sql:66-92 | end to end: after any pipeline run and any merges of its blocks, each column of an hour and page is the worth of the rows in the raw table, every copy counted once |
| PipelineTotals.MinuteUsersAreRaw | init/clickhouse-init.sql:66-77 | end to end: after any pipeline run and any merges the merged unique_users of a minute and page are the users of the well-formed views in the raw table |

## Left out

- HTTP routing, tokens, passwords, configuration, health checks, logging, response texts: no logic the properties rest on.
- JSON: a payload is the event it decodes to or nothing; malformed payloads are the undecodable case.
- float64 rounding of amounts, rates and averages: exact rationals instead.
- Registration across users, wallets and balances tables; only `CreateBalancesForWallet` is modelled, and its partial failure.
- The UUID wallet (`service.go`, `repo_postgres.go`): not routed, and the ledger with one currency.
- `GetRate`: not used by the handlers; it repeats `GetRateWithSource` without the sign check.
- Consumer groups and rebalancing. The notification's group variant is the machine of `Consumption` with the group's committed offset as the saved one and no failing read of it.
- Retention: log truncation and table TTLs. The aggregates are compared with everything ever inserted.
- User agent, IP address and processing time beyond being passed through: no aggregate reads them.
- The buffer's `Size` accessor, which nothing modelled here reads; broker list parsing and `Ping` of the publisher: plumbing.
- `pv-producer`: random generation; its batch buffer repeats the aggregator's argument in an easier form.
- AuthRepo.Repo.Exchange: does not claim that the returned balances are the immediate post-state among concurrent transactions, because they are read after the commit and outside the transaction; `LedgerConcurrency.ReadsSeePrefixes` says what such a read sees.
- AuthRepo.Repo.GetBalances: an error while scanning is the same outcome as a failed query.
- ExchangerClient.ExchangerClient.GetAllRates: locks are not fields of the class; its two locked sections are atomic, others' refreshes run between them, and `RateCache` interleaves the steps inside.
- Publisher.Publisher.Backoff: does not model the wrap-around of a 64-bit duration, which needs more than thirty attempts at 200 ms.
- Publisher.Publisher.Publish: marshalling never fails, and a write's timeout is one of its outcomes.
- RateIndex.AllRates: query and scan errors are left out; they return no map.
- NotificationConsumer.Consumer.RunSimpleConsumer: late effects of failed requests happen at once in the class; `Consumption` lets them happen at any later time.
- AggregatorConsumer.Consumer.Run: runs alone in the class; the flushes of other goroutines are the machine's, and the time of the last flush is left out of the metrics.
- Handlers.Handler.HandleExchange: the response's texts are left out.
