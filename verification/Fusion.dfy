/** index.py, `_hybrid`: reciprocal-rank fusion of a text ranking and a vector ranking. */
module Fusion {
  import opened Lists
  import opened Wrappers

  type RowId = int
  type Concept = string

  const RANK_OFFSET: real := 60.0

  datatype Neighbour = Neighbour(id: RowId, distance: real)

  datatype Hit = Hit(row: RowId, concept: Concept, score: real)

  /** What one place in one list adds to a row's score. */
  datatype Vote = Vote(id: RowId, share: real)

  type Table = map<RowId, Concept>

  ghost predicate ByDistance(vec: seq<Neighbour>) {
    forall i, j | 0 <= i < j < |vec| :: vec[i].distance <= vec[j].distance
  }

  function Ids(vec: seq<Neighbour>): seq<RowId> {
    seq(|vec|, i requires 0 <= i < |vec| => vec[i].id)
  }

  // ----------------------------------------------------------------- votes

  function Closeness(distance: real): real {
    if 1.0 - distance <= 0.0 then 0.0 else if 1.0 - distance >= 1.0 then 1.0 else 1.0 - distance
  }

  function Share(weight: real, rank: nat): real {
    weight / (RANK_OFFSET + rank as real + 1.0)
  }

  function Blend(weight: real, closeness: real, rank: nat): real {
    Share(weight * closeness, rank)
  }

  function VectorShare(n: Neighbour, weight: real, rank: nat): real {
    Blend(weight, Closeness(n.distance), rank)
  }

  function TextVotes(fts: seq<RowId>, weight: real): seq<Vote> {
    seq(|fts|, i requires 0 <= i < |fts| => Vote(fts[i], Share(1.0 - weight, i)))
  }

  function VectorVotes(vec: seq<Neighbour>, weight: real): seq<Vote> {
    seq(|vec|, i requires 0 <= i < |vec| => Vote(vec[i].id, VectorShare(vec[i], weight, i)))
  }

  function OrEmpty<T>(list: Option<seq<T>>): seq<T> {
    match list case Some(s) => s case None => []
  }

  /** The two lists as far as they were asked for. */
  function Votes(fts: Option<seq<RowId>>, vec: Option<seq<Neighbour>>, weight: real): seq<Vote> {
    TextVotes(OrEmpty(fts), weight) + VectorVotes(OrEmpty(vec), weight)
  }

  function Score(votes: seq<Vote>, id: RowId): real {
    if votes == [] then 0.0
    else
      var last := votes[|votes| - 1];
      Score(votes[..|votes| - 1], id) + (if last.id == id then last.share else 0.0)
  }

  predicate Voted(votes: seq<Vote>, id: RowId) {
    exists i :: 0 <= i < |votes| && votes[i].id == id
  }

  /** The voted rows, in the order of their first vote. */
  function Seen(votes: seq<Vote>): seq<RowId> {
    if votes == [] then []
    else
      var before, id := Seen(votes[..|votes| - 1]), votes[|votes| - 1].id;
      if id in before then before else before + [id]
  }

  ghost predicate Tallied(rrf: map<RowId, real>, votes: seq<Vote>) {
    && (forall id :: id in rrf <==> id in Seen(votes))
    && (forall id | id in rrf :: rrf[id] == Score(votes, id))
  }

  // --------------------------------------------------------------- ranking

  predicate Covers(rrf: map<RowId, real>, ids: seq<RowId>) {
    forall i | 0 <= i < |ids| :: ids[i] in rrf
  }

  function Insert(ids: seq<RowId>, id: RowId, rrf: map<RowId, real>): (r: seq<RowId>)
    requires Covers(rrf, ids) && id in rrf
    ensures multiset(r) == multiset(ids) + multiset{id}
  {
    if ids != [] && rrf[ids[|ids| - 1]] < rrf[id] then
      assert ids == ids[..|ids| - 1] + [ids[|ids| - 1]];
      Insert(ids[..|ids| - 1], id, rrf) + [ids[|ids| - 1]]
    else ids + [id]
  }

  /** Python's stable sort, largest score first. */
  function Ranked(ids: seq<RowId>, rrf: map<RowId, real>): (r: seq<RowId>)
    requires Covers(rrf, ids)
    ensures multiset(r) == multiset(ids) && Covers(rrf, r)
  {
    if ids == [] then []
    else
      assert ids == ids[..|ids| - 1] + [ids[|ids| - 1]];
      var r := Insert(Ranked(ids[..|ids| - 1], rrf), ids[|ids| - 1], rrf);
      assert forall i | 0 <= i < |r| :: r[i] in multiset(ids);
      r
  }

  ghost predicate Descending(ids: seq<RowId>, rrf: map<RowId, real>)
    requires Covers(rrf, ids)
  {
    forall i, j | 0 <= i < j < |ids| :: rrf[ids[i]] >= rrf[ids[j]]
  }

  lemma InsertFrom(ids: seq<RowId>, id: RowId, rrf: map<RowId, real>, x: RowId)
    requires Covers(rrf, ids) && id in rrf && x in Insert(ids, id, rrf)
    ensures x == id || x in ids
  {
    assert x in multiset(Insert(ids, id, rrf));
  }

  lemma {:induction false} InsertDescending(ids: seq<RowId>, id: RowId, rrf: map<RowId, real>)
    requires Covers(rrf, ids) && id in rrf && Descending(ids, rrf)
    ensures Covers(rrf, Insert(ids, id, rrf)) && Descending(Insert(ids, id, rrf), rrf)
    decreases |ids|
  {
    var n := |ids| - 1;
    if ids != [] && rrf[ids[n]] < rrf[id] {
      InsertDescending(ids[..n], id, rrf);
      var r := Insert(ids[..n], id, rrf);
      forall i | 0 <= i < |r| ensures rrf[r[i]] >= rrf[ids[n]] {
        InsertFrom(ids[..n], id, rrf, r[i]);
      }
    }
  }

  lemma {:induction false} RankedDescending(ids: seq<RowId>, rrf: map<RowId, real>)
    requires Covers(rrf, ids)
    ensures Descending(Ranked(ids, rrf), rrf)
    decreases |ids|
  {
    if ids != [] {
      RankedDescending(ids[..|ids| - 1], rrf);
      InsertDescending(Ranked(ids[..|ids| - 1], rrf), ids[|ids| - 1], rrf);
    }
  }

  function Largest(ids: seq<RowId>, rrf: map<RowId, real>): real
    requires ids != [] && Covers(rrf, ids)
  {
    var x := rrf[ids[|ids| - 1]];
    if |ids| == 1 then x
    else
      var before := Largest(ids[..|ids| - 1], rrf);
      if before >= x then before else x
  }

  lemma {:induction false} LargestIs(ids: seq<RowId>, rrf: map<RowId, real>) returns (k: nat)
    requires ids != [] && Covers(rrf, ids)
    ensures forall i | 0 <= i < |ids| :: rrf[ids[i]] <= Largest(ids, rrf)
    ensures k < |ids| && rrf[ids[k]] == Largest(ids, rrf)
    decreases |ids|
  {
    k := |ids| - 1;
    if |ids| > 1 {
      var before := LargestIs(ids[..|ids| - 1], rrf);
      if rrf[ids[before]] >= rrf[ids[k]] {
        k := before;
      }
    }
  }

  /** Rows no longer in the table are skipped. */
  function HitsOf(ids: seq<RowId>, rrf: map<RowId, real>, norm: real, table: Table): seq<Hit>
    requires Covers(rrf, ids) && norm != 0.0
  {
    if ids == [] then []
    else
      var id := ids[|ids| - 1];
      HitsOf(ids[..|ids| - 1], rrf, norm, table) + (if id in table then [Hit(id, table[id], rrf[id] / norm)] else [])
  }

  function Norm(ids: seq<RowId>, rrf: map<RowId, real>): real
    requires ids != [] && Covers(rrf, ids)
  {
    if Largest(ids, rrf) == 0.0 then 1.0 else Largest(ids, rrf)
  }

  // ------------------------------------------------------------ the method

  lemma {:induction false} UnseenScoresNothing(votes: seq<Vote>, id: RowId)
    ensures id !in Seen(votes) ==> Score(votes, id) == 0.0
    ensures id in Seen(votes) <==> Voted(votes, id)
    decreases |votes|
  {
    if votes != [] {
      var n := |votes| - 1;
      UnseenScoresNothing(votes[..n], id);
      if Voted(votes[..n], id) {
        var i :| 0 <= i < n && votes[..n][i].id == id;
        assert votes[i].id == id;
      }
      if i :| 0 <= i < |votes| && votes[i].id == id && i < n {
        assert votes[..n][i].id == id;
      }
    }
  }

  /** The dictionary after vote k, and its keys in insertion order. */
  method Add(rrf: map<RowId, real>, order: seq<RowId>, id: RowId, share: real, ghost votes: seq<Vote>, ghost k: nat)
    returns (rrf': map<RowId, real>, order': seq<RowId>)
    requires k < |votes| && votes[k] == Vote(id, share)
    requires Tallied(rrf, votes[..k]) && order == Seen(votes[..k])
    ensures Tallied(rrf', votes[..k + 1]) && order' == Seen(votes[..k + 1])
  {
    assert votes[..k + 1][..k] == votes[..k];
    UnseenScoresNothing(votes[..k], id);
    if id in rrf {
      rrf', order' := rrf[id := rrf[id] + share], order;
    } else {
      rrf', order' := rrf[id := share], order + [id];
    }
  }

  method CountText(fts: seq<RowId>, weight: real) returns (rrf: map<RowId, real>, order: seq<RowId>)
    ensures Tallied(rrf, TextVotes(fts, weight)) && order == Seen(TextVotes(fts, weight))
  {
    rrf, order := map[], [];
    ghost var votes := TextVotes(fts, weight);
    for rank := 0 to |fts|
      invariant Tallied(rrf, votes[..rank]) && order == Seen(votes[..rank])
    {
      rrf, order := Add(rrf, order, fts[rank], Share(1.0 - weight, rank), votes, rank);
    }
    assert votes[..|votes|] == votes;
  }

  method CountVectors(was: map<RowId, real>, wasOrder: seq<RowId>, vec: seq<Neighbour>, weight: real, ghost before: seq<Vote>)
    returns (rrf: map<RowId, real>, order: seq<RowId>)
    requires Tallied(was, before) && wasOrder == Seen(before)
    ensures Tallied(rrf, before + VectorVotes(vec, weight)) && order == Seen(before + VectorVotes(vec, weight))
  {
    rrf, order := was, wasOrder;
    ghost var n, votes := |before|, before + VectorVotes(vec, weight);
    assert votes[..n] == before;
    for rank := 0 to |vec|
      invariant Tallied(rrf, votes[..n + rank]) && order == Seen(votes[..n + rank])
    {
      var share := VectorShare(vec[rank], weight, rank);
      assert votes[n + rank] == Vote(vec[rank].id, share);
      rrf, order := Add(rrf, order, vec[rank].id, share, votes, n + rank);
    }
    assert votes[..n + |vec|] == votes;
  }

  /** The scores of the voted rows. */
  function ScoresOf(votes: seq<Vote>): map<RowId, real> {
    map id | id in Seen(votes) :: Score(votes, id)
  }

  function First<T>(s: seq<T>, n: nat): seq<T> {
    if |s| <= n then s else s[..n]
  }

  /** The best rows by score, before the table is consulted. */
  function Best(votes: seq<Vote>, top: nat): (r: seq<RowId>)
    ensures Covers(ScoresOf(votes), r)
  {
    First(Ranked(Seen(votes), ScoresOf(votes)), top)
  }

  function Scale(votes: seq<Vote>): real
    requires Seen(votes) != []
  {
    Norm(Seen(votes), ScoresOf(votes))
  }

  method MaxOf(order: seq<RowId>, rrf: map<RowId, real>) returns (largest: real)
    requires order != [] && Covers(rrf, order)
    ensures largest == Largest(order, rrf)
  {
    largest := rrf[order[0]];
    for i := 1 to |order|
      invariant largest == Largest(order[..i], rrf)
    {
      assert order[..i + 1][..i] == order[..i];
      if rrf[order[i]] > largest {
        largest := rrf[order[i]];
      }
    }
    assert order[..|order|] == order;
  }

  function Fused(votes: seq<Vote>, table: Table, top: nat): seq<Hit> {
    if Seen(votes) == [] then [] else HitsOf(Best(votes, top), ScoresOf(votes), Scale(votes), table)
  }

  lemma TalliedScores(rrf: map<RowId, real>, votes: seq<Vote>)
    requires Tallied(rrf, votes)
    ensures rrf == ScoresOf(votes)
  {
  }

  method Count(fts: Option<seq<RowId>>, vec: Option<seq<Neighbour>>, weight: real)
    returns (rrf: map<RowId, real>, order: seq<RowId>)
    ensures order == Seen(Votes(fts, vec, weight)) && rrf == ScoresOf(Votes(fts, vec, weight))
  {
    rrf, order := CountText(OrEmpty(fts), weight);
    rrf, order := CountVectors(rrf, order, OrEmpty(vec), weight, TextVotes(OrEmpty(fts), weight));
    TalliedScores(rrf, Votes(fts, vec, weight));
  }

  method CollectHits(ids: seq<RowId>, rrf: map<RowId, real>, norm: real, table: Table) returns (hits: seq<Hit>)
    requires Covers(rrf, ids) && norm != 0.0
    ensures hits == HitsOf(ids, rrf, norm, table)
  {
    hits := [];
    for i := 0 to |ids|
      invariant Covers(rrf, ids[..i]) && hits == HitsOf(ids[..i], rrf, norm, table)
    {
      assert ids[..i + 1][..i] == ids[..i];
      if ids[i] in table {
        hits := hits + [Hit(ids[i], table[ids[i]], rrf[ids[i]] / norm)];
      }
    }
    assert ids[..|ids|] == ids;
  }

  method Hybrid(fts: Option<seq<RowId>>, vec: Option<seq<Neighbour>>, table: Table, top: nat, weight: real)
    returns (hits: seq<Hit>)
    ensures hits == Fused(Votes(fts, vec, weight), table, top)
  {
    var rrf, order := Count(fts, vec, weight);
    if order == [] {
      return [];
    }
    var largest := MaxOf(order, rrf);
    var norm := if largest == 0.0 then 1.0 else largest;
    var ids := First(Ranked(order, rrf), top);
    assert ids == Best(Votes(fts, vec, weight), top) && norm == Scale(Votes(fts, vec, weight));
    hits := CollectHits(ids, rrf, norm, table);
  }

  /** `read`: the arguments are checked first. */
  method Read(fts: Option<seq<RowId>>, vec: Option<seq<Neighbour>>, table: Table, top: int, weight: real)
    returns (hits: Option<seq<Hit>>)
    ensures hits.None? <==> top < 1 || !(0.0 <= weight <= 1.0)
    ensures hits.Some? ==> top >= 1 && hits.value == Fused(Votes(fts, vec, weight), table, top)
  {
    if top < 1 || !(0.0 <= weight <= 1.0) {
      return None;
    }
    var found := Hybrid(fts, vec, table, top, weight);
    return Some(found);
  }

  // ------------------------------------------------------- what hits mean

  ghost predicate NonNegative(votes: seq<Vote>) {
    forall i | 0 <= i < |votes| :: votes[i].share >= 0.0
  }

  lemma Quotients(a: real, b: real, x: real, y: real)
    requires a >= b >= 0.0 && 0.0 < x <= y
    ensures a / x >= b / y >= 0.0
  {
    assert a / x >= b / x;
    assert b / x >= b / y by {
      assert (b / x) * y >= (b / x) * x == b == (b / y) * y;
    }
  }

  lemma ShareFalls(w: real, v: real, i: nat, j: nat)
    requires w >= v >= 0.0 && i <= j
    ensures Share(w, i) >= Share(v, j) >= 0.0
  {
    var x, y := RANK_OFFSET + i as real + 1.0, RANK_OFFSET + j as real + 1.0;
    Quotients(w, v, x, y);
  }

  /** Shares never rise from one place to a later one. */
  ghost predicate Falling(votes: seq<Vote>) {
    && NonNegative(votes)
    && forall i, j | 0 <= i < j < |votes| :: votes[i].share >= votes[j].share
  }

  lemma TextFalls(fts: seq<RowId>, weight: real)
    requires 0.0 <= weight <= 1.0
    ensures Falling(TextVotes(fts, weight))
  {
    var votes := TextVotes(fts, weight);
    forall i, j | 0 <= i <= j < |votes| ensures votes[i].share >= votes[j].share >= 0.0 {
      ShareFalls(1.0 - weight, 1.0 - weight, i, j);
    }
  }

  lemma BlendFalls(w: real, c: real, d: real, i: nat, j: nat)
    requires w >= 0.0 && c >= d >= 0.0 && i <= j
    ensures Blend(w, c, i) >= Blend(w, d, j) >= 0.0
  {
    ShareFalls(w * c, w * d, i, j);
  }

  lemma VectorShareFalls(n: Neighbour, m: Neighbour, weight: real, i: nat, j: nat)
    requires 0.0 <= weight && n.distance <= m.distance && i <= j
    ensures VectorShare(n, weight, i) >= VectorShare(m, weight, j) >= 0.0
  {
    BlendFalls(weight, Closeness(n.distance), Closeness(m.distance), i, j);
  }

  lemma VectorFalls(vec: seq<Neighbour>, weight: real)
    requires 0.0 <= weight
    ensures NonNegative(VectorVotes(vec, weight)) && (ByDistance(vec) ==> Falling(VectorVotes(vec, weight)))
  {
    var votes := VectorVotes(vec, weight);
    forall i, j | 0 <= i <= j < |votes| && vec[i].distance <= vec[j].distance ensures votes[i].share >= votes[j].share >= 0.0 {
      VectorShareFalls(vec[i], vec[j], weight, i, j);
    }
    forall i | 0 <= i < |votes| ensures votes[i].share >= 0.0 {
      VectorShareFalls(vec[i], vec[i], weight, i, i);
    }
  }

  lemma VotesNonNegative(fts: Option<seq<RowId>>, vec: Option<seq<Neighbour>>, weight: real)
    requires 0.0 <= weight <= 1.0
    ensures NonNegative(Votes(fts, vec, weight))
  {
    TextFalls(OrEmpty(fts), weight);
    VectorFalls(OrEmpty(vec), weight);
  }

  lemma {:induction false} ScoreNonNegative(votes: seq<Vote>, id: RowId)
    requires NonNegative(votes)
    ensures Score(votes, id) >= 0.0
    decreases |votes|
  {
    if votes != [] {
      ScoreNonNegative(votes[..|votes| - 1], id);
    }
  }

  lemma ScaleBounds(votes: seq<Vote>, id: RowId)
    requires NonNegative(votes) && id in Seen(votes)
    ensures Scale(votes) > 0.0 && 0.0 <= Score(votes, id) <= Scale(votes)
  {
    var k := LargestIs(Seen(votes), ScoresOf(votes));
    ScoreNonNegative(votes, Seen(votes)[k]);
    ScoreNonNegative(votes, id);
    var i :| 0 <= i < |Seen(votes)| && Seen(votes)[i] == id;
    assert ScoresOf(votes)[Seen(votes)[i]] <= Largest(Seen(votes), ScoresOf(votes));
  }

  lemma {:induction false} HitOrigin(ids: seq<RowId>, rrf: map<RowId, real>, norm: real, table: Table, h: Hit)
    requires Covers(rrf, ids) && norm != 0.0
    ensures h in HitsOf(ids, rrf, norm, table) <==>
              h.row in ids && h.row in table && h.concept == table[h.row] && h.score == rrf[h.row] / norm
    decreases |ids|
  {
    if ids != [] {
      HitOrigin(ids[..|ids| - 1], rrf, norm, table, h);
      assert h.row in ids <==> h.row in ids[..|ids| - 1] || h.row == ids[|ids| - 1];
    }
  }

  lemma Quotient(a: real, b: real)
    requires 0.0 <= a <= b && b > 0.0
    ensures 0.0 <= a / b <= 1.0
  {
  }

  /** The hits are exactly the best rows still in the table, scored on a scale where the best
      candidate has 1, within [0, 1]. */
  lemma HitsExactly(fts: Option<seq<RowId>>, vec: Option<seq<Neighbour>>, table: Table, top: nat, weight: real, h: Hit)
    requires 0.0 <= weight <= 1.0
    ensures var votes := Votes(fts, vec, weight);
            h in Fused(votes, table, top) <==>
              h.row in Best(votes, top) && h.row in table && h.concept == table[h.row]
              && h.score == ScoresOf(votes)[h.row] / Scale(votes)
    ensures h in Fused(Votes(fts, vec, weight), table, top) ==> 0.0 <= h.score <= 1.0
  {
    var votes := Votes(fts, vec, weight);
    if Seen(votes) != [] {
      HitOrigin(Best(votes, top), ScoresOf(votes), Scale(votes), table, h);
      if h in Fused(votes, table, top) {
        VotesNonNegative(fts, vec, weight);
        ScaleBounds(votes, h.row);
        Quotient(Score(votes, h.row), Scale(votes));
      }
    }
  }

  lemma Quotients2(a: real, b: real, n: real)
    requires a >= b && n > 0.0
    ensures a / n >= b / n
  {
  }

  lemma {:induction false} HitsOfDescending(ids: seq<RowId>, rrf: map<RowId, real>, norm: real, table: Table)
    requires Covers(rrf, ids) && norm > 0.0 && Descending(ids, rrf)
    ensures |HitsOf(ids, rrf, norm, table)| <= |ids|
    ensures forall i, j | 0 <= i < j < |HitsOf(ids, rrf, norm, table)| ::
              HitsOf(ids, rrf, norm, table)[i].score >= HitsOf(ids, rrf, norm, table)[j].score
    decreases |ids|
  {
    if ids != [] {
      var n := |ids| - 1;
      HitsOfDescending(ids[..n], rrf, norm, table);
      var before := HitsOf(ids[..n], rrf, norm, table);
      forall i | 0 <= i < |before| ensures before[i].score >= rrf[ids[n]] / norm {
        HitOrigin(ids[..n], rrf, norm, table, before[i]);
        var k :| 0 <= k < n && ids[..n][k] == before[i].row;
        assert rrf[ids[k]] >= rrf[ids[n]];
        Quotients2(rrf[ids[k]], rrf[ids[n]], norm);
      }
    }
  }

  lemma BestDescending(votes: seq<Vote>, top: nat)
    ensures |Best(votes, top)| <= top && Descending(Best(votes, top), ScoresOf(votes))
  {
    var all := Ranked(Seen(votes), ScoresOf(votes));
    RankedDescending(Seen(votes), ScoresOf(votes));
  }

  lemma FusedDescending(votes: seq<Vote>, table: Table, top: nat)
    requires NonNegative(votes)
    ensures var hits := Fused(votes, table, top);
            |hits| <= top && forall i, j | 0 <= i < j < |hits| :: hits[i].score >= hits[j].score
  {
    if Seen(votes) != [] {
      ScaleBounds(votes, Seen(votes)[0]);
      BestDescending(votes, top);
      HitsOfDescending(Best(votes, top), ScoresOf(votes), Scale(votes), table);
    }
  }

  /** At most top hits, best first. */
  lemma HitsDescending(fts: Option<seq<RowId>>, vec: Option<seq<Neighbour>>, table: Table, top: nat, weight: real)
    requires 0.0 <= weight <= 1.0
    ensures |Fused(Votes(fts, vec, weight), table, top)| <= top
    ensures forall i, j | 0 <= i < j < |Fused(Votes(fts, vec, weight), table, top)| ::
              Fused(Votes(fts, vec, weight), table, top)[i].score >= Fused(Votes(fts, vec, weight), table, top)[j].score
  {
    VotesNonNegative(fts, vec, weight);
    FusedDescending(Votes(fts, vec, weight), table, top);
  }

  /** A candidate is passed over only for a full list of candidates that score no lower. */
  lemma PassedOver(votes: seq<Vote>, top: nat, id: RowId)
    requires Voted(votes, id) && id !in Best(votes, top)
    ensures |Best(votes, top)| == top
    ensures forall other | other in Best(votes, top) :: Score(votes, other) >= Score(votes, id)
  {
    UnseenScoresNothing(votes, id);
    var all := Ranked(Seen(votes), ScoresOf(votes));
    RankedDescending(Seen(votes), ScoresOf(votes));
    assert id in multiset(all);
    var k :| 0 <= k < |all| && all[k] == id;
    forall other | other in Best(votes, top) ensures Score(votes, other) >= Score(votes, id) {
      var i :| 0 <= i < |Best(votes, top)| && Best(votes, top)[i] == other;
      assert all[i] == other;
      assert ScoresOf(votes)[all[i]] >= ScoresOf(votes)[all[k]];
    }
  }

  // ------------------------------------------------------------- dominance

  lemma {:induction false} ScoreSplit(a: seq<Vote>, b: seq<Vote>, id: RowId)
    ensures Score(a + b, id) == Score(a, id) + Score(b, id)
    decreases |b|
  {
    if b == [] {
      assert a + b == a;
    } else {
      assert (a + b)[..|a + b| - 1] == a + b[..|b| - 1];
      ScoreSplit(a, b[..|b| - 1], id);
    }
  }

  ghost predicate OneVoteEach(votes: seq<Vote>) {
    forall i, j | 0 <= i < j < |votes| :: votes[i].id != votes[j].id
  }

  /** A list that names a row once gives it the share of its place. */
  lemma {:induction false} ScoreAt(votes: seq<Vote>, i: nat)
    requires OneVoteEach(votes) && i < |votes|
    ensures Score(votes, votes[i].id) == votes[i].share
    decreases |votes|
  {
    var n := |votes| - 1;
    if i < n {
      ScoreAt(votes[..n], i);
      assert votes[..n][i] == votes[i];
    } else {
      UnseenScoresNothing(votes[..n], votes[n].id);
      forall k | 0 <= k < n ensures votes[..n][k].id != votes[n].id {
        assert votes[..n][k] == votes[k];
      }
    }
  }

  /** Wherever q has a place, r has an earlier one. */
  ghost predicate Ahead(ids: seq<RowId>, r: RowId, q: RowId) {
    forall i | 0 <= i < |ids| && ids[i] == q :: r in ids[..i]
  }

  function VoteIds(votes: seq<Vote>): seq<RowId> {
    seq(|votes|, i requires 0 <= i < |votes| => votes[i].id)
  }

  lemma AheadInList(votes: seq<Vote>, r: RowId, q: RowId)
    requires OneVoteEach(votes) && Falling(votes) && Ahead(VoteIds(votes), r, q)
    ensures Score(votes, r) >= Score(votes, q)
  {
    UnseenScoresNothing(votes, q);
    if Voted(votes, q) {
      var i: nat :| i < |votes| && votes[i].id == q;
      assert VoteIds(votes)[i] == q;
      var j: nat :| j < i && VoteIds(votes)[..i][j] == r;
      ScoreAt(votes, i);
      ScoreAt(votes, j);
    } else {
      ScoreNonNegative(votes, r);
    }
  }

  lemma DistinctVotes(votes: seq<Vote>)
    requires Distinct(VoteIds(votes))
    ensures OneVoteEach(votes)
  {
    forall i, j | 0 <= i < j < |votes| ensures votes[i].id != votes[j].id {
      assert VoteIds(votes)[i] != VoteIds(votes)[j];
    }
  }

  /** A row ahead of another in both lists never scores lower, whatever the weight. */
  lemma AheadScoresNoLower(fts: seq<RowId>, vec: seq<Neighbour>, weight: real, r: RowId, q: RowId)
    requires 0.0 <= weight <= 1.0 && Distinct(fts) && Distinct(Ids(vec)) && ByDistance(vec)
    requires Ahead(fts, r, q) && Ahead(Ids(vec), r, q)
    ensures Score(Votes(Some(fts), Some(vec), weight), r) >= Score(Votes(Some(fts), Some(vec), weight), q)
  {
    var text, vectors := TextVotes(fts, weight), VectorVotes(vec, weight);
    assert VoteIds(text) == fts && VoteIds(vectors) == Ids(vec);
    TextFalls(fts, weight);
    VectorFalls(vec, weight);
    DistinctVotes(text);
    DistinctVotes(vectors);
    AheadInList(text, r, q);
    AheadInList(vectors, r, q);
    ScoreSplit(text, vectors, r);
    ScoreSplit(text, vectors, q);
  }

  // -------------------------------------------------- and among the hits

  lemma AheadAppend(a: seq<RowId>, b: seq<RowId>, r: RowId, q: RowId)
    requires Ahead(a, r, q) && Ahead(b, r, q)
    ensures Ahead(a + b, r, q)
  {
    forall i | 0 <= i < |a + b| && (a + b)[i] == q ensures r in (a + b)[..i] {
      if i < |a| {
        assert (a + b)[..i] == a[..i];
      } else {
        assert (a + b)[..i] == a + b[..i - |a|];
      }
    }
  }

  lemma AheadSnoc(ids: seq<RowId>, id: RowId, r: RowId, q: RowId)
    requires Ahead(ids, r, q) && (id == q ==> r in ids)
    ensures Ahead(ids + [id], r, q)
  {
    forall i | 0 <= i < |ids| + 1 && (ids + [id])[i] == q ensures r in (ids + [id])[..i] {
      assert (ids + [id])[..i] == ids[..i];
    }
  }

  lemma AheadPrefix(ids: seq<RowId>, n: nat, r: RowId, q: RowId)
    requires n <= |ids| && Ahead(ids, r, q)
    ensures Ahead(ids[..n], r, q)
  {
    forall i | 0 <= i < n && ids[..n][i] == q ensures r in ids[..n][..i] {
      assert ids[..n][..i] == ids[..i];
    }
  }

  /** A row voted for ahead of another is seen ahead of it. */
  lemma {:induction false} SeenAhead(votes: seq<Vote>, r: RowId, q: RowId)
    requires Ahead(VoteIds(votes), r, q)
    ensures Ahead(Seen(votes), r, q)
    decreases |votes|
  {
    if votes != [] {
      var n := |votes| - 1;
      assert VoteIds(votes[..n]) == VoteIds(votes)[..n];
      AheadPrefix(VoteIds(votes), n, r, q);
      SeenAhead(votes[..n], r, q);
      if votes[n].id == q {
        var j :| 0 <= j < n && VoteIds(votes)[..n][j] == r;
        assert votes[..n][j].id == r;
        UnseenScoresNothing(votes[..n], r);
      }
      if votes[n].id !in Seen(votes[..n]) {
        AheadSnoc(Seen(votes[..n]), votes[n].id, r, q);
      }
    }
  }

  lemma InsertHas(ids: seq<RowId>, id: RowId, rrf: map<RowId, real>, r: RowId)
    requires Covers(rrf, ids) && id in rrf && r in ids
    ensures r in Insert(ids, id, rrf)
  {
    assert r in multiset(Insert(ids, id, rrf));
  }

  lemma NotTheLast(ids: seq<RowId>, r: RowId)
    requires r in ids && ids[|ids| - 1] != r
    ensures r in ids[..|ids| - 1]
  {
    var j :| 0 <= j < |ids| && ids[j] == r;
    assert ids[..|ids| - 1][j] == r;
  }

  /** Insertion never takes q past an r that scores no lower. */
  lemma {:induction false} InsertAhead(ids: seq<RowId>, id: RowId, rrf: map<RowId, real>, r: RowId, q: RowId)
    requires Covers(rrf, ids) && id in rrf && Ahead(ids, r, q)
    requires id == q ==> r in ids && rrf[r] >= rrf[q]
    ensures Ahead(Insert(ids, id, rrf), r, q)
    decreases |ids|
  {
    var n := |ids| - 1;
    if ids != [] && rrf[ids[n]] < rrf[id] {
      AheadPrefix(ids, n, r, q);
      if id == q {
        NotTheLast(ids, r);
      }
      InsertAhead(ids[..n], id, rrf, r, q);
      if ids[n] == q {
        InsertHas(ids[..n], id, rrf, r);
      }
      AheadSnoc(Insert(ids[..n], id, rrf), ids[n], r, q);
    } else {
      AheadSnoc(ids, id, r, q);
    }
  }

  /** The sort is stable: what is ahead and scores no lower stays ahead. */
  lemma {:induction false} RankedAhead(ids: seq<RowId>, rrf: map<RowId, real>, r: RowId, q: RowId)
    requires Covers(rrf, ids) && Ahead(ids, r, q) && (r in rrf && q in rrf ==> rrf[r] >= rrf[q])
    ensures Ahead(Ranked(ids, rrf), r, q)
    decreases |ids|
  {
    if ids != [] {
      var n := |ids| - 1;
      AheadPrefix(ids, n, r, q);
      RankedAhead(ids[..n], rrf, r, q);
      if ids[n] == q {
        assert r in multiset(Ranked(ids[..n], rrf));
      }
      InsertAhead(Ranked(ids[..n], rrf), ids[n], rrf, r, q);
    }
  }

  /** Dropping absent rows keeps a present row ahead. */
  lemma {:induction false} HitsAhead(ids: seq<RowId>, rrf: map<RowId, real>, norm: real, table: Table, r: RowId, q: RowId, j: nat)
    returns (i: nat)
    requires Covers(rrf, ids) && norm != 0.0 && Ahead(ids, r, q) && r in table
    requires j < |HitsOf(ids, rrf, norm, table)| && HitsOf(ids, rrf, norm, table)[j].row == q
    ensures i < j && HitsOf(ids, rrf, norm, table)[i].row == r
    decreases |ids|
  {
    var n := |ids| - 1;
    var before := HitsOf(ids[..n], rrf, norm, table);
    AheadPrefix(ids, n, r, q);
    if j < |before| {
      i := HitsAhead(ids[..n], rrf, norm, table, r, q, j);
    } else {
      assert r in ids[..n];
      HitOrigin(ids[..n], rrf, norm, table, Hit(r, table[r], rrf[r] / norm));
      i :| 0 <= i < |before| && before[i] == Hit(r, table[r], rrf[r] / norm);
    }
  }

  lemma BestAhead(votes: seq<Vote>, top: nat, r: RowId, q: RowId)
    requires Ahead(VoteIds(votes), r, q) && Score(votes, r) >= Score(votes, q)
    ensures Ahead(Best(votes, top), r, q)
  {
    var all := Ranked(Seen(votes), ScoresOf(votes));
    SeenAhead(votes, r, q);
    RankedAhead(Seen(votes), ScoresOf(votes), r, q);
    if |all| > top {
      AheadPrefix(all, top, r, q);
    }
  }

  lemma FusedAhead(votes: seq<Vote>, table: Table, top: nat, r: RowId, q: RowId, j: nat) returns (i: nat)
    requires Ahead(VoteIds(votes), r, q) && Score(votes, r) >= Score(votes, q) && r in table
    requires j < |Fused(votes, table, top)| && Fused(votes, table, top)[j].row == q
    ensures i < j && Fused(votes, table, top)[i].row == r
  {
    BestAhead(votes, top, r, q);
    i := HitsAhead(Best(votes, top), ScoresOf(votes), Scale(votes), table, r, q, j);
  }

  lemma VotesAhead(fts: seq<RowId>, vec: seq<Neighbour>, weight: real, r: RowId, q: RowId)
    requires Ahead(fts, r, q) && Ahead(Ids(vec), r, q)
    ensures Ahead(VoteIds(Votes(Some(fts), Some(vec), weight)), r, q)
  {
    AheadAppend(fts, Ids(vec), r, q);
    assert VoteIds(Votes(Some(fts), Some(vec), weight)) == fts + Ids(vec);
  }

  /** If a row still in the table is ahead of another in both lists and the other is a hit, then
      it is a hit too and comes first. */
  lemma AheadHitsFirst(fts: seq<RowId>, vec: seq<Neighbour>, table: Table, top: nat, weight: real, r: RowId, q: RowId, j: nat)
    returns (i: nat)
    requires 0.0 <= weight <= 1.0 && Distinct(fts) && Distinct(Ids(vec)) && ByDistance(vec)
    requires Ahead(fts, r, q) && Ahead(Ids(vec), r, q) && r in table
    requires var hits := Fused(Votes(Some(fts), Some(vec), weight), table, top); j < |hits| && hits[j].row == q
    ensures i < j && Fused(Votes(Some(fts), Some(vec), weight), table, top)[i].row == r
  {
    AheadScoresNoLower(fts, vec, weight, r, q);
    VotesAhead(fts, vec, weight, r, q);
    i := FusedAhead(Votes(Some(fts), Some(vec), weight), table, top, r, q, j);
  }
}
