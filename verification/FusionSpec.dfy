/** What rank fusion returns, written out from the two lists: the score of a row by its places,
    the ranking by score, and the hits. */
module FusionSpec {
  import opened Lists
  import opened Wrappers
  import opened Fusion

  /** The place of r in the list, or -1. */
  ghost function Place(list: seq<RowId>, r: RowId): int {
    if r in list then var i :| 0 <= i < |list| && list[i] == r; i else -1
  }

  /** 1 - d, but not below 0 and not above 1. */
  function Nearness(d: real): real {
    if d >= 1.0 then 0.0 else if d <= 0.0 then 1.0 else 1.0 - d
  }

  /** The text list weighs 1 - weight, and place i counts for 1 / (61 + i). */
  ghost function TextPart(fts: seq<RowId>, weight: real, r: RowId): real {
    if r in fts then (1.0 - weight) / (61.0 + Place(fts, r) as real) else 0.0
  }

  function NearPart(distance: real, weight: real, place: int): real
    requires place >= 0
  {
    weight * Nearness(distance) / (61.0 + place as real)
  }

  /** The vector list weighs weight, and how near the row is counts too. */
  ghost function VectorPart(vec: seq<Neighbour>, weight: real, r: RowId): real {
    if r in Ids(vec) then
      var j := Place(Ids(vec), r);
      NearPart(vec[j].distance, weight, j)
    else 0.0
  }

  ghost function Formula(fts: seq<RowId>, vec: seq<Neighbour>, weight: real, r: RowId): real {
    TextPart(fts, weight, r) + VectorPart(vec, weight, r)
  }

  lemma VoteScore(votes: seq<Vote>, ids: seq<RowId>, r: RowId)
    requires VoteIds(votes) == ids && Distinct(ids)
    ensures r in ids ==> 0 <= Place(ids, r) < |votes| && Score(votes, r) == votes[Place(ids, r)].share
    ensures r !in ids ==> Score(votes, r) == 0.0
  {
    DistinctVotes(votes);
    UnseenScoresNothing(votes, r);
    if r in ids {
      var i := Place(ids, r);
      assert VoteIds(votes)[i] == r;
      ScoreAt(votes, i);
    } else {
      forall k | 0 <= k < |votes| ensures votes[k].id != r {
        assert VoteIds(votes)[k] in ids;
      }
    }
  }

  lemma ShareIs(weight: real, rank: nat)
    ensures Share(weight, rank) == weight / (61.0 + rank as real)
  {
    assert 60.0 + rank as real + 1.0 == 61.0 + rank as real;
  }

  lemma BlendIs(weight: real, distance: real, rank: nat)
    ensures Blend(weight, Nearness(distance), rank) == NearPart(distance, weight, rank)
  {
    ShareIs(weight * Nearness(distance), rank);
  }

  lemma VectorShareIs(n: Neighbour, weight: real, rank: nat)
    ensures VectorShare(n, weight, rank) == NearPart(n.distance, weight, rank)
  {
    assert Closeness(n.distance) == Nearness(n.distance);
    BlendIs(weight, n.distance, rank);
  }

  lemma TextScore(fts: seq<RowId>, weight: real, r: RowId)
    requires Distinct(fts)
    ensures Score(TextVotes(fts, weight), r) == TextPart(fts, weight, r)
  {
    assert VoteIds(TextVotes(fts, weight)) == fts;
    VoteScore(TextVotes(fts, weight), fts, r);
    if r in fts {
      ShareIs(1.0 - weight, Place(fts, r));
    }
  }

  lemma VectorPartAt(vec: seq<Neighbour>, weight: real, r: RowId)
    requires r in Ids(vec)
    ensures var j := Place(Ids(vec), r);
            0 <= j < |vec| && VectorPart(vec, weight, r) == VectorVotes(vec, weight)[j].share
  {
    var j := Place(Ids(vec), r);
    VectorShareIs(vec[j], weight, j);
  }

  lemma VectorScore(vec: seq<Neighbour>, weight: real, r: RowId)
    requires Distinct(Ids(vec))
    ensures Score(VectorVotes(vec, weight), r) == VectorPart(vec, weight, r)
  {
    var votes := VectorVotes(vec, weight);
    assert VoteIds(votes) == Ids(vec);
    VoteScore(votes, Ids(vec), r);
    if r in Ids(vec) {
      VectorPartAt(vec, weight, r);
    }
  }

  /** The score a row is given is the one its places have. */
  lemma ScoreFormula(fts: Option<seq<RowId>>, vec: Option<seq<Neighbour>>, weight: real, r: RowId)
    requires Distinct(OrEmpty(fts)) && Distinct(Ids(OrEmpty(vec)))
    ensures Score(Votes(fts, vec, weight), r) == Formula(OrEmpty(fts), OrEmpty(vec), weight, r)
  {
    TextScore(OrEmpty(fts), weight, r);
    VectorScore(OrEmpty(vec), weight, r);
    ScoreSplit(TextVotes(OrEmpty(fts), weight), VectorVotes(OrEmpty(vec), weight), r);
  }

  // ------------------------------------------------------------- the ranking

  lemma NeverAhead(ids: seq<RowId>, r: RowId, q: RowId)
    requires q !in ids
    ensures Ahead(ids, r, q)
  {
    assert forall i | 0 <= i < |ids| :: ids[i] in ids;
  }

  /** Wherever q stands, r stands before it, and r stands somewhere if q does. */
  lemma {:induction false} OneAhead(ids: seq<RowId>, r: RowId, q: RowId)
    requires r != q
    ensures Ahead(ids, r, q) || Ahead(ids, q, r)
    decreases |ids|
  {
    if ids != [] {
      var n := |ids| - 1;
      OneAhead(ids[..n], r, q);
      assert ids == ids[..n] + [ids[n]];
      if ids[n] == q && r !in ids[..n] {
        NeverAhead(ids[..n], q, r);
        AheadSnoc(ids[..n], ids[n], q, r);
      } else if ids[n] == r && q !in ids[..n] {
        NeverAhead(ids[..n], r, q);
        AheadSnoc(ids[..n], ids[n], r, q);
      } else if Ahead(ids[..n], r, q) {
        AheadSnoc(ids[..n], ids[n], r, q);
      } else {
        AheadSnoc(ids[..n], ids[n], q, r);
      }
    }
  }

  /** a stands before b: it scores more, or as much and was met first. */
  ghost predicate Precedes(fts: seq<RowId>, vec: seq<Neighbour>, weight: real, a: RowId, b: RowId) {
    || Formula(fts, vec, weight, a) > Formula(fts, vec, weight, b)
    || (Formula(fts, vec, weight, a) == Formula(fts, vec, weight, b) && Ahead(fts + Ids(vec), a, b))
  }

  /** The rows of both lists, each once, in that order. */
  ghost predicate IsRanking(fts: seq<RowId>, vec: seq<Neighbour>, weight: real, ranking: seq<RowId>) {
    && Distinct(ranking)
    && (forall r :: r in ranking <==> r in fts || r in Ids(vec))
    && (forall a, b | 0 <= a < b < |ranking| :: Precedes(fts, vec, weight, ranking[a], ranking[b]))
  }

  lemma {:induction false} SeenDistinct(votes: seq<Vote>)
    ensures Distinct(Seen(votes))
    decreases |votes|
  {
    if votes != [] {
      SeenDistinct(votes[..|votes| - 1]);
    }
  }

  lemma OnceInList(s: seq<RowId>, i: nat, j: nat)
    requires i < j < |s| && s[i] == s[j]
    ensures multiset(s)[s[i]] >= 2
  {
    assert s == s[..i] + [s[i]] + s[i + 1..j] + [s[j]] + s[j + 1..];
    assert multiset(s) == multiset(s[..i]) + multiset{s[i]} + multiset(s[i + 1..j]) + multiset{s[j]} + multiset(s[j + 1..]);
  }

  lemma {:induction false} DistinctCounts(s: seq<RowId>, r: RowId)
    requires Distinct(s)
    ensures multiset(s)[r] <= 1
    decreases |s|
  {
    if s != [] {
      var n := |s| - 1;
      DistinctCounts(s[..n], r);
      assert s == s[..n] + [s[n]];
      assert s[n] !in s[..n];
    }
  }

  lemma DistinctAgain(s: seq<RowId>, t: seq<RowId>)
    requires Distinct(s) && multiset(t) == multiset(s)
    ensures Distinct(t)
  {
    forall i, j | 0 <= i < j < |t| ensures t[i] != t[j] {
      if t[i] == t[j] {
        OnceInList(t, i, j);
        DistinctCounts(s, t[i]);
      }
    }
  }

  lemma SeenRows(fts: Option<seq<RowId>>, vec: Option<seq<Neighbour>>, weight: real, r: RowId)
    ensures r in Seen(Votes(fts, vec, weight)) <==> r in OrEmpty(fts) || r in Ids(OrEmpty(vec))
    ensures VoteIds(Votes(fts, vec, weight)) == OrEmpty(fts) + Ids(OrEmpty(vec))
  {
    var votes := Votes(fts, vec, weight);
    var ids := OrEmpty(fts) + Ids(OrEmpty(vec));
    UnseenScoresNothing(votes, r);
    assert VoteIds(votes) == ids;
    if r in ids {
      var i :| 0 <= i < |ids| && ids[i] == r;
      assert VoteIds(votes)[i] == votes[i].id;
    }
    if i :| 0 <= i < |votes| && votes[i].id == r {
      assert VoteIds(votes)[i] == r;
    }
  }

  lemma LaterNotAhead(ranking: seq<RowId>, a: nat, b: nat)
    requires Distinct(ranking) && a < b < |ranking|
    ensures !Ahead(ranking, ranking[b], ranking[a])
  {
    assert ranking[b] !in ranking[..a];
  }

  /** Of two rows in the sorted list the earlier scores more, or as much and was met first. */
  lemma RankedPrecedes(fts: Option<seq<RowId>>, vec: Option<seq<Neighbour>>, weight: real, a: nat, b: nat)
    requires Distinct(OrEmpty(fts)) && Distinct(Ids(OrEmpty(vec)))
    requires var votes := Votes(fts, vec, weight); a < b < |Ranked(Seen(votes), ScoresOf(votes))|
    ensures var ranking := Ranked(Seen(Votes(fts, vec, weight)), ScoresOf(Votes(fts, vec, weight)));
            Precedes(OrEmpty(fts), OrEmpty(vec), weight, ranking[a], ranking[b])
  {
    var votes := Votes(fts, vec, weight);
    var seen, scores := Seen(votes), ScoresOf(votes);
    var ranking := Ranked(seen, scores);
    var r, q := ranking[a], ranking[b];
    SeenDistinct(votes);
    DistinctAgain(seen, ranking);
    RankedDescending(seen, scores);
    ScoreFormula(fts, vec, weight, r);
    ScoreFormula(fts, vec, weight, q);
    assert scores[ranking[a]] >= scores[ranking[b]];
    if scores[r] == scores[q] {
      SeenRows(fts, vec, weight, r);
      OneAhead(VoteIds(votes), r, q);
      if Ahead(VoteIds(votes), q, r) {
        SeenAhead(votes, q, r);
        RankedAhead(seen, scores, q, r);
        LaterNotAhead(ranking, a, b);
      }
    }
  }

  lemma RankedIsRanking(fts: Option<seq<RowId>>, vec: Option<seq<Neighbour>>, weight: real)
    requires Distinct(OrEmpty(fts)) && Distinct(Ids(OrEmpty(vec)))
    ensures var votes := Votes(fts, vec, weight);
            IsRanking(OrEmpty(fts), OrEmpty(vec), weight, Ranked(Seen(votes), ScoresOf(votes)))
  {
    var votes := Votes(fts, vec, weight);
    var ranking := Ranked(Seen(votes), ScoresOf(votes));
    SeenDistinct(votes);
    DistinctAgain(Seen(votes), ranking);
    forall r ensures r in ranking <==> r in OrEmpty(fts) || r in Ids(OrEmpty(vec)) {
      SeenRows(fts, vec, weight, r);
      assert r in ranking <==> r in multiset(ranking);
      assert r in Seen(votes) <==> r in multiset(Seen(votes));
    }
    forall a, b | 0 <= a < b < |ranking| ensures Precedes(OrEmpty(fts), OrEmpty(vec), weight, ranking[a], ranking[b]) {
      RankedPrecedes(fts, vec, weight, a, b);
    }
  }

  // ---------------------------------------------------------------- the hits

  function RowsOf(hits: seq<Hit>): seq<RowId> {
    seq(|hits|, i requires 0 <= i < |hits| => hits[i].row)
  }

  function InTable(table: Table): RowId -> bool {
    r => r in table
  }

  /** The first top of the ranking that the table still has, with their scores as parts of the
      greatest; if that is zero, as they are. */
  ghost predicate FusesExactly(fts: seq<RowId>, vec: seq<Neighbour>, table: Table, top: nat, weight: real,
                               ranking: seq<RowId>, hits: seq<Hit>) {
    && IsRanking(fts, vec, weight, ranking)
    && RowsOf(hits) == Filter(InTable(table), if |ranking| <= top then ranking else ranking[..top])
    && forall h | h in hits ::
         && ranking != [] && h.row in table && h.concept == table[h.row]
         && var greatest := Formula(fts, vec, weight, ranking[0]);
            h.score == Formula(fts, vec, weight, h.row) / if greatest == 0.0 then 1.0 else greatest
  }

  lemma {:induction false} HitRows(ids: seq<RowId>, rrf: map<RowId, real>, norm: real, table: Table)
    requires Covers(rrf, ids) && norm != 0.0
    ensures RowsOf(HitsOf(ids, rrf, norm, table)) == Filter(InTable(table), ids)
    decreases |ids|
  {
    if ids != [] {
      var n := |ids| - 1;
      HitRows(ids[..n], rrf, norm, table);
      assert ids == ids[..n] + [ids[n]];
      FilterSnoc(InTable(table), ids[..n], ids[n]);
    }
  }

  lemma FirstOfRanked(ids: seq<RowId>, rrf: map<RowId, real>)
    requires ids != [] && Covers(rrf, ids)
    ensures Ranked(ids, rrf) != [] && rrf[Ranked(ids, rrf)[0]] == Largest(ids, rrf)
  {
    var ranking := Ranked(ids, rrf);
    assert |ranking| == |multiset(ranking)| == |multiset(ids)| == |ids|;
    RankedDescending(ids, rrf);
    var k := LargestIs(ids, rrf);
    assert ids[k] in multiset(ranking) && ranking[0] in multiset(ids);
    var j :| 0 <= j < |ranking| && ranking[j] == ids[k];
    var i :| 0 <= i < |ids| && ids[i] == ranking[0];
    assert rrf[ids[i]] <= Largest(ids, rrf);
    assert rrf[ranking[0]] >= rrf[ranking[j]];
  }

  lemma FirstIsLargest(fts: Option<seq<RowId>>, vec: Option<seq<Neighbour>>, weight: real)
    requires Distinct(OrEmpty(fts)) && Distinct(Ids(OrEmpty(vec))) && Seen(Votes(fts, vec, weight)) != []
    ensures var votes := Votes(fts, vec, weight);
            var ranking := Ranked(Seen(votes), ScoresOf(votes));
            ranking != [] && Largest(Seen(votes), ScoresOf(votes)) == Formula(OrEmpty(fts), OrEmpty(vec), weight, ranking[0])
  {
    var votes := Votes(fts, vec, weight);
    var seen, scores := Seen(votes), ScoresOf(votes);
    var ranking := Ranked(seen, scores);
    FirstOfRanked(seen, scores);
    ScoreFormula(fts, vec, weight, ranking[0]);
  }

  /** Rank fusion of lists that name each row once returns exactly these hits. */
  lemma FusedExactly(fts: Option<seq<RowId>>, vec: Option<seq<Neighbour>>, table: Table, top: nat, weight: real)
    returns (ranking: seq<RowId>)
    requires Distinct(OrEmpty(fts)) && Distinct(Ids(OrEmpty(vec)))
    ensures FusesExactly(OrEmpty(fts), OrEmpty(vec), table, top, weight, ranking, Fused(Votes(fts, vec, weight), table, top))
  {
    var votes := Votes(fts, vec, weight);
    ranking := Ranked(Seen(votes), ScoresOf(votes));
    RankedIsRanking(fts, vec, weight);
    if Seen(votes) == [] {
      assert ranking == [];
    } else {
      FirstIsLargest(fts, vec, weight);
      HitRows(Best(votes, top), ScoresOf(votes), Scale(votes), table);
      forall h | h in Fused(votes, table, top)
        ensures h.row in table && h.concept == table[h.row]
        ensures h.score == Formula(OrEmpty(fts), OrEmpty(vec), weight, h.row) / Scale(votes)
      {
        HitOrigin(Best(votes, top), ScoresOf(votes), Scale(votes), table, h);
        ScoreFormula(fts, vec, weight, h.row);
      }
    }
  }

  // ------------------------------------------------------- one list alone

  lemma Smaller(a: real, b: real, x: real, y: real)
    requires a >= b >= 0.0 && a > 0.0 && 0.0 < x < y
    ensures a / x > b / y
  {
    assert a / x > a / y;
    assert a / y >= b / y;
  }

  lemma NoWeight(a: real, x: real)
    requires x > 0.0
    ensures 0.0 * a / x == 0.0
  {
  }

  lemma NoVectors(vec: seq<Neighbour>, r: RowId)
    ensures VectorPart(vec, 0.0, r) == 0.0
  {
    if r in Ids(vec) {
      var j := Place(Ids(vec), r);
      NoWeight(Nearness(vec[j].distance), 61.0 + j as real);
    }
  }

  /** At weight 0 the text list decides alone: a row it names scores more than any it names later
      or not at all. */
  lemma TextDecides(fts: seq<RowId>, vec: seq<Neighbour>, r: RowId, q: RowId)
    requires r in fts && (q !in fts || Place(fts, r) < Place(fts, q))
    ensures Formula(fts, vec, 0.0, r) > Formula(fts, vec, 0.0, q)
  {
    NoVectors(vec, r);
    NoVectors(vec, q);
    if q in fts {
      Smaller(1.0, 1.0, 61.0 + Place(fts, r) as real, 61.0 + Place(fts, q) as real);
    }
  }

  lemma NoText(fts: seq<RowId>, r: RowId)
    ensures TextPart(fts, 1.0, r) == 0.0
  {
    if r in fts {
      NoWeight(1.0, 61.0 + Place(fts, r) as real);
    }
  }

  lemma Positive(a: real, x: real)
    requires a > 0.0 && x > 0.0
    ensures a / x > 0.0
  {
  }

  lemma FullWeight(vec: seq<Neighbour>, r: RowId)
    ensures VectorPart(vec, 1.0, r) ==
              if r in Ids(vec) then Nearness(vec[Place(Ids(vec), r)].distance) / (61.0 + Place(Ids(vec), r) as real) else 0.0
  {
  }

  /** At weight 1 the vector list does, among rows nearer than distance 1: such a row scores more
      than any the list names later, where it is in order of distance, or not at all. */
  lemma VectorsDecide(fts: seq<RowId>, vec: seq<Neighbour>, r: RowId, q: RowId)
    requires ByDistance(vec) && r in Ids(vec) && vec[Place(Ids(vec), r)].distance < 1.0
    requires q !in Ids(vec) || Place(Ids(vec), r) < Place(Ids(vec), q)
    ensures Formula(fts, vec, 1.0, r) > Formula(fts, vec, 1.0, q)
  {
    var i := Place(Ids(vec), r);
    NoText(fts, r);
    NoText(fts, q);
    FullWeight(vec, r);
    FullWeight(vec, q);
    Positive(Nearness(vec[i].distance), 61.0 + i as real);
    if q in Ids(vec) {
      var j := Place(Ids(vec), q);
      Smaller(Nearness(vec[i].distance), Nearness(vec[j].distance), 61.0 + i as real, 61.0 + j as real);
    }
  }
}
