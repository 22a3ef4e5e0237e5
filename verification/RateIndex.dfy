/**
 The two ways of reading the currency_rates table: everything at once as a map from
 "FROM_TO" to rate, or one pair at a time.
 */
module RateIndex {
  import opened Common

  datatype RateRow = RateRow(from: string, to: string, rate: real)

  /** (from_currency, to_currency) is the primary key. */
  ghost predicate UniquePairs(rows: seq<RateRow>) {
    forall i, j :: 0 <= i < j < |rows| ==> rows[i].from != rows[j].from || rows[i].to != rows[j].to
  }

  function KeyOf(from: string, to: string): string {
    from + "_" + to
  }

  /** The map as specified: a later row with the same key replaces an earlier one. */
  function Index(rows: seq<RateRow>): map<string, real> {
    if rows == [] then map[]
    else
      var r := rows[|rows| - 1];
      Index(rows[..|rows| - 1])[KeyOf(r.from, r.to) := r.rate]
  }

  /** The map without its recursion: a key is there exactly when some row has it. */
  lemma {:induction false} IndexHasRows(rows: seq<RateRow>, key: string)
    ensures key in Index(rows) <==> exists i :: 0 <= i < |rows| && rows[i].from + "_" + rows[i].to == key
  {
    if rows != [] {
      IndexHasRows(rows[..|rows| - 1], key);
    }
  }

  /** The last row with a key decides its rate. */
  lemma {:induction false} IndexKeepsLast(rows: seq<RateRow>, i: nat)
    requires i < |rows|
    requires forall j :: i < j < |rows| ==> rows[j].from + "_" + rows[j].to != rows[i].from + "_" + rows[i].to
    ensures rows[i].from + "_" + rows[i].to in Index(rows)
    ensures Index(rows)[rows[i].from + "_" + rows[i].to] == rows[i].rate
  {
    if i < |rows| - 1 {
      IndexKeepsLast(rows[..|rows| - 1], i);
    }
  }

  method AllRates(rows: seq<RateRow>) returns (out: map<string, real>)
    ensures out == Index(rows)
    ensures forall key :: key in out <==> exists i :: 0 <= i < |rows| && rows[i].from + "_" + rows[i].to == key
    ensures forall i: nat ::
      i < |rows| ==>
      (forall j :: i < j < |rows| ==> rows[j].from + "_" + rows[j].to != rows[i].from + "_" + rows[i].to) ==>
      var key := rows[i].from + "_" + rows[i].to;
      key in out && out[key] == rows[i].rate
  {
    out := map[];
    for i := 0 to |rows|
      invariant out == Index(rows[..i])
    {
      assert rows[..i + 1][..i] == rows[..i];
      out := out[KeyOf(rows[i].from, rows[i].to) := rows[i].rate];
    }
    assert rows[..|rows|] == rows;
    forall key ensures key in out <==> exists i :: 0 <= i < |rows| && rows[i].from + "_" + rows[i].to == key {
      IndexHasRows(rows, key);
    }
    forall i: nat |
      i < |rows| && forall j :: i < j < |rows| ==> rows[j].from + "_" + rows[j].to != rows[i].from + "_" + rows[i].to
      ensures
        var key := rows[i].from + "_" + rows[i].to;
        key in out && out[key] == rows[i].rate
    {
      IndexKeepsLast(rows, i);
    }
  }

  /** SELECT rate WHERE from_currency = from AND to_currency = to. */
  function Rate(rows: seq<RateRow>, from: string, to: string): Option<real> {
    if rows == [] then None
    else if rows[0].from == from && rows[0].to == to then Some(rows[0].rate)
    else Rate(rows[1..], from, to)
  }

  function Lookup(index: map<string, real>, from: string, to: string): Option<real> {
    var k := KeyOf(from, to);
    if k in index then Some(index[k]) else None
  }

  predicate Plain(code: string) {
    '_' !in code
  }

  ghost predicate PlainCodes(rows: seq<RateRow>) {
    forall i :: 0 <= i < |rows| ==> Plain(rows[i].from) && Plain(rows[i].to)
  }

  /** A key made of two codes without an underscore can be read in one way only. */
  lemma KeyReadsBack(f: string, t: string, from: string, to: string)
    requires Plain(f) && Plain(t) && KeyOf(f, t) == KeyOf(from, to)
    ensures f == from && t == to
  {
    var k := KeyOf(f, t);
    assert k[|from|] == '_';
    assert forall i :: 0 <= i < |k| && i != |f| ==> k[i] == if i < |f| then f[i] else t[i - |f| - 1];
    assert |from| == |f|;
    assert k[..|f|] == f && k[..|from|] == from;
    assert k[|f| + 1..] == t && k[|from| + 1..] == to;
  }

  lemma {:induction false} RateIs(rows: seq<RateRow>, from: string, to: string)
    requires UniquePairs(rows)
    ensures Rate(rows, from, to).None? <==> forall r :: r in rows ==> r.from != from || r.to != to
    ensures forall r :: r in rows && r.from == from && r.to == to ==> Rate(rows, from, to) == Some(r.rate)
  {
    if rows != [] {
      assert rows[0] in rows && forall r :: r in rows ==> r == rows[0] || r in rows[1..];
      assert UniquePairs(rows[1..]);
      RateIs(rows[1..], from, to);
      if rows[0].from == from && rows[0].to == to {
        forall r | r in rows[1..] ensures r.from != from || r.to != to {
          var k :| 0 <= k < |rows[1..]| && rows[1..][k] == r;
          assert rows[k + 1] == r;
        }
      }
    }
  }

  lemma {:induction false} IndexIs(rows: seq<RateRow>, from: string, to: string)
    requires UniquePairs(rows) && PlainCodes(rows)
    ensures Lookup(Index(rows), from, to).None? <==> forall r :: r in rows ==> r.from != from || r.to != to
    ensures forall r :: r in rows && r.from == from && r.to == to ==> Lookup(Index(rows), from, to) == Some(r.rate)
  {
    if rows != [] {
      var before, last := rows[..|rows| - 1], rows[|rows| - 1];
      assert last in rows && forall r :: r in rows ==> r == last || r in before;
      assert forall r :: r in before ==> r in rows;
      IndexIs(before, from, to);
      if KeyOf(last.from, last.to) == KeyOf(from, to) {
        KeyReadsBack(last.from, last.to, from, to);
        forall r | r in before ensures r.from != from || r.to != to {
          var k :| 0 <= k < |before| && before[k] == r;
          assert rows[k] == r;
        }
      } else {
        assert last.from != from || last.to != to;
      }
    }
  }

  /** With codes that contain no underscore, looking a pair up in the map agrees with asking for it, for every query. */
  lemma IndexAgrees(rows: seq<RateRow>, from: string, to: string)
    requires UniquePairs(rows) && PlainCodes(rows)
    ensures Lookup(Index(rows), from, to) == Rate(rows, from, to)
  {
    RateIs(rows, from, to);
    IndexIs(rows, from, to);
    if r :| r in rows && r.from == from && r.to == to {
      assert Lookup(Index(rows), from, to) == Some(r.rate);
    }
  }

  ghost predicate AgreesOnEveryQuery(rows: seq<RateRow>) {
    forall from, to :: Lookup(Index(rows), from, to) == Rate(rows, from, to)
  }

  /** A code with an underscore makes its row answer a pair that is not in the table. */
  lemma UnderscoreMisleads(row: RateRow)
    requires !Plain(row.from) || !Plain(row.to)
    ensures !AgreesOnEveryQuery([row])
  {
    var k := KeyOf(row.from, row.to);
    var i: nat :| i < |k| && k[i] == '_' && i != |row.from| by {
      if !Plain(row.from) {
        var j :| 0 <= j < |row.from| && row.from[j] == '_';
        assert k[j] == '_';
      } else {
        var j :| 0 <= j < |row.to| && row.to[j] == '_';
        assert k[|row.from| + 1 + j] == '_';
      }
    }
    var from, to := k[..i], k[i + 1..];
    assert KeyOf(from, to) == k;
    assert from != row.from;
    assert [row][..0] == [] && [row][1..] == [];
    assert Index([row]) == map[k := row.rate];
    assert Lookup(Index([row]), from, to) == Some(row.rate);
    assert Rate([row], from, to) == None;
  }

  /**
   The exact condition on the codes a table may use: every such table agrees on every query exactly
   when no code has an underscore.
   */
  lemma CodesExactly(pairs: set<(string, string)>)
    ensures
      (forall rows: seq<RateRow> :: UniquePairs(rows) && (forall r :: r in rows ==> (r.from, r.to) in pairs) ==>
        AgreesOnEveryQuery(rows))
      <==> (forall p :: p in pairs ==> Plain(p.0) && Plain(p.1))
  {
    if forall p :: p in pairs ==> Plain(p.0) && Plain(p.1) {
      forall rows: seq<RateRow> | UniquePairs(rows) && (forall r :: r in rows ==> (r.from, r.to) in pairs)
        ensures AgreesOnEveryQuery(rows)
      {
        forall i | 0 <= i < |rows| ensures Plain(rows[i].from) && Plain(rows[i].to) {
          assert rows[i] in rows && (rows[i].from, rows[i].to) in pairs;
        }
        forall from, to ensures Lookup(Index(rows), from, to) == Rate(rows, from, to) {
          IndexAgrees(rows, from, to);
        }
      }
    } else {
      var p :| p in pairs && !(Plain(p.0) && Plain(p.1));
      var row := RateRow(p.0, p.1, 1.0);
      UnderscoreMisleads(row);
      assert UniquePairs([row]) && forall r :: r in [row] ==> (r.from, r.to) in pairs;
    }
  }
}
