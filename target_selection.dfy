/** Choosing the targets of a new node: weighted sampling without replacement
    over the candidate list, the weight of a candidate being a homophily
    factor times its degree plus a small constant. The random source is an
    injected stream of draws `draws(0), draws(1), ...`; `cursor` is the index
    of the next unused draw. */
module TargetSelection {
  import opened Graphs

  /** Added to every degree so that a node of degree 0 still carries weight. */
  const Epsilon: real := 0.00001

  predicate Distinct(s: seq<nat>)
  {
    forall i, j :: 0 <= i < j < |s| ==> s[i] != s[j]
  }

  /** Every candidate in `pool` has an entry in the weight table. */
  predicate Covers(pool: seq<nat>, table: map<nat, real>)
  {
    forall k :: k in pool ==> k in table
  }

  /** What the selector demands of its arguments: `source` and every candidate
      are nodes of the graph with a group label, and no candidate is listed twice. */
  predicate Candidates(g: Graph, source: nat, targetList: seq<nat>, mask: seq<bool>)
  {
    && source < |mask|
    && (forall k :: k in targetList ==> k < |mask| && k < g.order)
    && Distinct(targetList)
  }

  /** A non-negative factor times a positive one is zero exactly when the
      first factor is. */
  lemma ProductSign(a: real, b: real)
    requires a >= 0.0 && b > 0.0
    ensures a * b >= 0.0 && (a * b == 0.0 <==> a == 0.0)
  {
    if a > 0.0 {
      assert a * b > 0.0;
    }
  }

  /** The homophily factor times (degree + Epsilon). */
  function Weight(g: Graph, mask: seq<bool>, homophily: real, source: nat, k: nat): (w: real)
    requires source < |mask| && k < |mask|
    requires 0.0 <= homophily <= 1.0
    ensures w >= 0.0
    ensures w == 0.0 <==> (if mask[source] == mask[k] then homophily == 0.0 else homophily == 1.0)
    ensures 0.0 < homophily < 1.0 ==> w > 0.0
  {
    var factor := if mask[source] == mask[k] then homophily else 1.0 - homophily;
    var d := Degree(g.edges, k) as real + Epsilon;
    ProductSign(factor, d);
    factor * d
  }

  /** The weight table as a value: one entry per candidate. */
  function WeightMap(g: Graph, mask: seq<bool>, homophily: real, source: nat, targetList: seq<nat>): (table: map<nat, real>)
    requires source < |mask| && (forall k :: k in targetList ==> k < |mask|)
    requires 0.0 <= homophily <= 1.0
    ensures forall k :: k in table <==> k in targetList
    ensures forall k :: k in table ==> table[k] >= 0.0
  {
    map k | k in targetList :: Weight(g, mask, homophily, source, k)
  }

  /** Fills the table of weights, one candidate at a time. */
  method WeightTable(g: Graph, mask: seq<bool>, homophily: real, source: nat, targetList: seq<nat>)
    returns (table: map<nat, real>)
    requires source < |mask| && (forall k :: k in targetList ==> k < |mask|)
    requires 0.0 <= homophily <= 1.0
    ensures forall k :: k in table <==> k in targetList
    ensures forall k :: k in table ==> table[k] == Weight(g, mask, homophily, source, k)
  {
    table := map[];
    for i := 0 to |targetList|
      invariant forall k :: k in table <==> k in targetList[..i]
      invariant forall k :: k in table ==> k in targetList && table[k] == Weight(g, mask, homophily, source, k)
    {
      var k := targetList[i];
      assert k in targetList;
      assert targetList[..i + 1] == targetList[..i] + [k];
      table := table[k := Weight(g, mask, homophily, source, k)];
    }
    assert targetList[..|targetList|] == targetList;
  }

  /** The sum of the weights of the candidates in `pool`, in list order. */
  function Total(pool: seq<nat>, table: map<nat, real>): (sum: real)
    requires Covers(pool, table)
    ensures (forall k :: k in pool ==> table[k] >= 0.0) ==> sum >= 0.0
  {
    if |pool| == 0 then 0.0 else Total(pool[..|pool| - 1], table) + table[pool[|pool| - 1]]
  }

  /** With non-negative weights the total is non-negative, and it is zero
      exactly when every candidate weighs nothing. */
  lemma {:induction false} TotalZeroIff(pool: seq<nat>, table: map<nat, real>)
    requires Covers(pool, table)
    requires forall k :: k in pool ==> table[k] >= 0.0
    ensures Total(pool, table) >= 0.0
    ensures Total(pool, table) == 0.0 <==> forall k :: k in pool ==> table[k] == 0.0
  {
    if |pool| > 0 {
      var init := pool[..|pool| - 1];
      assert forall k :: k in init ==> k in pool;
      TotalZeroIff(init, table);
      assert pool == init + [pool[|pool| - 1]];
    }
  }

  /** The running sum of shares `weight / total` over the first n candidates,
      as the selection loop accumulates it. */
  function Cum(pool: seq<nat>, table: map<nat, real>, total: real, n: nat): (c: real)
    requires Covers(pool, table) && total != 0.0 && n <= |pool|
    ensures (forall k :: k in pool ==> table[k] >= 0.0) && total > 0.0 ==> c >= 0.0
  {
    if n == 0 then 0.0 else Cum(pool, table, total, n - 1) + table[pool[n - 1]] / total
  }

  /** The running share after n candidates is their weight over the total. */
  lemma {:induction false} CumShare(pool: seq<nat>, table: map<nat, real>, total: real, n: nat)
    requires Covers(pool, table) && total != 0.0 && n <= |pool|
    ensures Cum(pool, table, total, n) == Total(pool[..n], table) / total
  {
    if n > 0 {
      CumShare(pool, table, total, n - 1);
      assert pool[..n][..n - 1] == pool[..n - 1];
      var a, b := Total(pool[..n - 1], table), table[pool[n - 1]];
      assert a / total + b / total == (a + b) / total;
    }
  }

  /** With non-negative weights and a positive total the running share never decreases. */
  lemma {:induction false} CumMonotone(pool: seq<nat>, table: map<nat, real>, total: real, j: nat, n: nat)
    requires Covers(pool, table) && total > 0.0 && j <= n <= |pool|
    requires forall k :: k in pool ==> table[k] >= 0.0
    ensures Cum(pool, table, total, j) <= Cum(pool, table, total, n)
    decreases n - j
  {
    if j < n {
      CumMonotone(pool, table, total, j, n - 1);
      assert table[pool[n - 1]] / total >= 0.0;
    }
  }

  /** The scan of one draw from position j on, `cum` being the running share so far. */
  function FirstFrom(pool: seq<nat>, table: map<nat, real>, total: real, r: real, j: nat, cum: real): (i: nat)
    requires Covers(pool, table) && total != 0.0 && j <= |pool|
    requires cum == Cum(pool, table, total, j)
    ensures j <= i <= |pool|
    ensures i < |pool| ==> r < Cum(pool, table, total, i + 1)
    ensures forall t :: j < t <= i ==> Cum(pool, table, total, t) <= r
    decreases |pool| - j
  {
    if j == |pool| then |pool|
    else
      var c := cum + table[pool[j]] / total;
      if r < c then j else FirstFrom(pool, table, total, r, j + 1, c)
  }

  /** The position of the candidate that draw r selects: the first whose
      running share exceeds r, or |pool| when the draw selects nothing. */
  function FirstExceeding(pool: seq<nat>, table: map<nat, real>, total: real, r: real): (i: nat)
    requires Covers(pool, table) && total != 0.0
    ensures i <= |pool|
    ensures i < |pool| ==> r < Cum(pool, table, total, i + 1)
    ensures forall t :: 0 < t <= i ==> Cum(pool, table, total, t) <= r
  {
    FirstFrom(pool, table, total, r, 0, 0.0)
  }

  /** A draw r in [0, 1) selects a candidate exactly when it falls below the
      remaining pool's share of the ORIGINAL total: since the total is not
      recomputed after removals, a draw above that share selects nothing. */
  lemma DrawHitsIff(pool: seq<nat>, table: map<nat, real>, total: real, r: real)
    requires Covers(pool, table) && total > 0.0 && 0.0 <= r
    requires forall k :: k in pool ==> table[k] >= 0.0
    ensures FirstExceeding(pool, table, total, r) < |pool| <==> r < Total(pool, table) / total
  {
    var i := FirstExceeding(pool, table, total, r);
    CumShare(pool, table, total, |pool|);
    assert pool[..|pool|] == pool;
    if i < |pool| {
      CumMonotone(pool, table, total, i + 1, |pool|);
    }
  }

  /** One draw: walks the pool in order, accumulating shares, and stops at the
      first candidate whose running share exceeds r. */
  method DrawOne(pool: seq<nat>, table: map<nat, real>, total: real, r: real) returns (i: nat)
    requires Covers(pool, table) && total != 0.0
    ensures i == FirstExceeding(pool, table, total, r)
  {
    var cumsum := 0.0;
    i := 0;
    while i < |pool|
      invariant i <= |pool|
      invariant cumsum == Cum(pool, table, total, i)
      invariant FirstFrom(pool, table, total, r, i, cumsum) == FirstExceeding(pool, table, total, r)
    {
      cumsum := cumsum + table[pool[i]] / total;
      if r < cumsum {
        return;
      }
      i := i + 1;
    }
  }

  /** The pool without its i-th candidate (the first occurrence of that
      candidate, the pool having no repeats). */
  function RemoveAt(s: seq<nat>, i: nat): (r: seq<nat>)
    requires i < |s| && Distinct(s)
    ensures |r| == |s| - 1 && Distinct(r)
    ensures forall k :: k in r <==> k in s && k != s[i]
    ensures forall j :: 0 <= j < |r| ==> r[j] == if j < i then s[j] else s[j + 1]
  {
    var r := s[..i] + s[i + 1..];
    assert forall j :: 0 <= j < |r| ==> r[j] == if j < i then s[j] else s[j + 1];
    assert forall k :: k in s && k != s[i] ==> k in r by {
      forall k | k in s && k != s[i] ensures k in r {
        var j :| 0 <= j < |s| && s[j] == k;
        if j < i { assert r[j] == k; } else { assert r[j - 1] == k; }
      }
    }
    r
  }

  /** No candidate left in the pool has been chosen already. */
  predicate Unchosen(pool: seq<nat>, chosen: set<nat>)
  {
    forall k :: k in pool ==> k !in chosen
  }

  /** The outcome of a selection: the chosen targets, what is left of the
      private copy of the candidate list, and the next unused draw. */
  datatype Picked = Picked(targets: set<nat>, pool: seq<nat>, cursor: nat)

  /** The draw loop from attempt `count` on, with `chosen` already selected:
      it stops once m targets are chosen or after `order` attempts. */
  function SampleFrom(pool: seq<nat>, table: map<nat, real>, total: real, m: nat, order: nat,
                      draws: nat -> real, cursor: nat, count: nat, chosen: set<nat>): (p: Picked)
    requires Covers(pool, table) && total != 0.0 && Distinct(pool)
    requires count <= order && |chosen| <= m && Unchosen(pool, chosen)
    ensures cursor <= p.cursor <= cursor + (order - count)
    ensures |p.targets| >= m || p.cursor == cursor + (order - count)
    decreases order - count
  {
    if |chosen| >= m || count + 1 > order then Picked(chosen, pool, cursor)
    else
      var i := FirstExceeding(pool, table, total, draws(cursor));
      if i < |pool| then
        SampleFrom(RemoveAt(pool, i), table, total, m, order, draws, cursor + 1, count + 1, chosen + {pool[i]})
      else
        SampleFrom(pool, table, total, m, order, draws, cursor + 1, count + 1, chosen)
  }

  /** One attempt of the draw loop, unfolded. */
  lemma SampleStep(pool: seq<nat>, table: map<nat, real>, total: real, m: nat, order: nat,
                   draws: nat -> real, cursor: nat, count: nat, chosen: set<nat>, i: nat)
    requires Covers(pool, table) && total != 0.0 && Distinct(pool)
    requires count + 1 <= order && |chosen| < m && Unchosen(pool, chosen)
    requires i == FirstExceeding(pool, table, total, draws(cursor))
    ensures i < |pool| ==>
              SampleFrom(pool, table, total, m, order, draws, cursor, count, chosen)
              == SampleFrom(RemoveAt(pool, i), table, total, m, order, draws, cursor + 1, count + 1, chosen + {pool[i]})
    ensures i == |pool| ==>
              SampleFrom(pool, table, total, m, order, draws, cursor, count, chosen)
              == SampleFrom(pool, table, total, m, order, draws, cursor + 1, count + 1, chosen)
  {
  }

  /** The draw loop keeps what it has chosen, never exceeds m targets, and
      leaves the chosen targets and the remaining pool a partition of what it
      started with; each draw adds at most one target. */
  lemma {:induction false} SampleShape(pool: seq<nat>, table: map<nat, real>, total: real, m: nat, order: nat,
                                       draws: nat -> real, cursor: nat, count: nat, chosen: set<nat>)
    requires Covers(pool, table) && total != 0.0 && Distinct(pool)
    requires count <= order && |chosen| <= m && Unchosen(pool, chosen)
    ensures var p := SampleFrom(pool, table, total, m, order, draws, cursor, count, chosen);
      && chosen <= p.targets && |p.targets| <= m
      && (forall k :: k in p.targets ==> k in chosen || k in pool)
      && (forall k :: k in pool ==> k in p.targets || k in p.pool)
      && (forall k :: k in p.pool ==> k in pool && k !in p.targets)
      && Distinct(p.pool)
      && |p.targets| - |chosen| <= p.cursor - cursor
    decreases order - count
  {
    if |chosen| < m && count + 1 <= order {
      var i := FirstExceeding(pool, table, total, draws(cursor));
      if i < |pool| {
        SampleShape(RemoveAt(pool, i), table, total, m, order, draws, cursor + 1, count + 1, chosen + {pool[i]});
      } else {
        SampleShape(pool, table, total, m, order, draws, cursor + 1, count + 1, chosen);
      }
    }
  }

  /** The draw loop on a private copy of the candidate list: at most `order`
      attempts, each drawing one value and removing the candidate it selects. */
  method DrawTargets(targetList: seq<nat>, table: map<nat, real>, probSum: real, m: nat, order: nat,
                     draws: nat -> real, cursor: nat) returns (targets: set<nat>, next: nat)
    requires Covers(targetList, table) && probSum != 0.0 && Distinct(targetList)
    ensures targets == SampleFrom(targetList, table, probSum, m, order, draws, cursor, 0, {}).targets
    ensures next == SampleFrom(targetList, table, probSum, m, order, draws, cursor, 0, {}).cursor
  {
    targets := {};
    var pool := targetList;
    var count := 0;
    next := cursor;
    while |targets| < m
      invariant count <= order && |targets| <= m
      invariant Covers(pool, table) && Distinct(pool) && Unchosen(pool, targets)
      invariant SampleFrom(pool, table, probSum, m, order, draws, next, count, targets)
             == SampleFrom(targetList, table, probSum, m, order, draws, cursor, 0, {})
      decreases order - count
    {
      count := count + 1;
      if count > order {
        break;
      }
      var r := draws(next);
      next := next + 1;
      var i := DrawOne(pool, table, probSum, r);
      SampleStep(pool, table, probSum, m, order, draws, next - 1, count - 1, targets, i);
      if i < |pool| {
        targets := targets + {pool[i]};
        pool := RemoveAt(pool, i);
      }
    }
  }

  /** The whole selection for `source`: weigh the candidates, give up at once
      on a zero total, else draw until m targets or `order` attempts. */
  function PickSpec(g: Graph, source: nat, targetList: seq<nat>, mask: seq<bool>, homophily: real,
                    m: nat, draws: nat -> real, cursor: nat): (p: Picked)
    requires Candidates(g, source, targetList, mask) && 0.0 <= homophily <= 1.0
    ensures cursor <= p.cursor <= cursor + g.order
    ensures |p.targets| < m ==>
              Total(targetList, WeightMap(g, mask, homophily, source, targetList)) == 0.0
              || p.cursor == cursor + g.order
  {
    var table := WeightMap(g, mask, homophily, source, targetList);
    var total := Total(targetList, table);
    if total == 0.0 then Picked({}, targetList, cursor)
    else SampleFrom(targetList, table, total, m, g.order, draws, cursor, 0, {})
  }

  /** The targets are distinct candidates from the list, at most m of them,
      and together with the untouched remainder of the private copy they make
      up the candidate list exactly. */
  lemma PickShape(g: Graph, source: nat, targetList: seq<nat>, mask: seq<bool>, homophily: real,
                  m: nat, draws: nat -> real, cursor: nat)
    requires Candidates(g, source, targetList, mask) && 0.0 <= homophily <= 1.0
    ensures var p := PickSpec(g, source, targetList, mask, homophily, m, draws, cursor);
      && (forall t :: t in p.targets ==> t in targetList) && |p.targets| <= m
      && (forall k :: k in targetList ==> k in p.targets || k in p.pool)
      && (forall k :: k in p.pool ==> k in targetList && k !in p.targets)
  {
    var table := WeightMap(g, mask, homophily, source, targetList);
    var total := Total(targetList, table);
    if total != 0.0 {
      SampleShape(targetList, table, total, m, g.order, draws, cursor, 0, {});
    }
  }

  /** The selector: returns the chosen targets and the next unused draw. The
      caller's list is a value and is never changed; the draws work on a copy. */
  method PickTargets(g: Graph, source: nat, targetList: seq<nat>, mask: seq<bool>, homophily: real,
                     m: nat, draws: nat -> real, cursor: nat) returns (targets: set<nat>, next: nat)
    requires Candidates(g, source, targetList, mask) && 0.0 <= homophily <= 1.0
    ensures targets == PickSpec(g, source, targetList, mask, homophily, m, draws, cursor).targets
    ensures next == PickSpec(g, source, targetList, mask, homophily, m, draws, cursor).cursor
    ensures (forall t :: t in targets ==> t in targetList) && |targets| <= m
    ensures cursor <= next <= cursor + g.order
  {
    var table := WeightTable(g, mask, homophily, source, targetList);
    assert table == WeightMap(g, mask, homophily, source, targetList);
    var probSum := Total(targetList, table);
    if probSum == 0.0 {
      targets, next := {}, cursor;
    } else {
      targets, next := DrawTargets(targetList, table, probSum, m, g.order, draws, cursor);
    }
    PickShape(g, source, targetList, mask, homophily, m, draws, cursor);
  }

  /** The total weight is zero exactly when every candidate's homophily factor
      is zero (degree + Epsilon is always positive). */
  lemma ZeroTotalIff(g: Graph, source: nat, targetList: seq<nat>, mask: seq<bool>, homophily: real)
    requires Candidates(g, source, targetList, mask) && 0.0 <= homophily <= 1.0
    ensures Total(targetList, WeightMap(g, mask, homophily, source, targetList)) == 0.0
        <==> forall k :: k in targetList ==>
               (if mask[source] == mask[k] then homophily == 0.0 else homophily == 1.0)
  {
    var table := WeightMap(g, mask, homophily, source, targetList);
    TotalZeroIff(targetList, table);
  }

  /** When no candidate carries weight (say homophily is 1 and every candidate
      is in the other group) the selection returns no target and uses no draw. */
  lemma NoWeightNoTargets(g: Graph, source: nat, targetList: seq<nat>, mask: seq<bool>, homophily: real,
                          m: nat, draws: nat -> real, cursor: nat)
    requires Candidates(g, source, targetList, mask) && 0.0 <= homophily <= 1.0
    requires forall k :: k in targetList ==>
               (if mask[source] == mask[k] then homophily == 0.0 else homophily == 1.0)
    ensures PickSpec(g, source, targetList, mask, homophily, m, draws, cursor) == Picked({}, targetList, cursor)
  {
    ZeroTotalIff(g, source, targetList, mask, homophily);
  }

  /** Strictly between 0 and 1, homophily gives every candidate weight, so a
      non-empty candidate list has a positive total. */
  lemma InteriorHomophilyPositiveTotal(g: Graph, source: nat, targetList: seq<nat>, mask: seq<bool>, homophily: real)
    requires Candidates(g, source, targetList, mask) && 0.0 < homophily < 1.0 && |targetList| > 0
    ensures Total(targetList, WeightMap(g, mask, homophily, source, targetList)) > 0.0
  {
    var table := WeightMap(g, mask, homophily, source, targetList);
    TotalZeroIff(targetList, table);
    var k := targetList[0];
    assert k in targetList && table[k] > 0.0;
  }
}
