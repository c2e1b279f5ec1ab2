/**
 The tie rule of the correctness gates: argmax, rank and trustworthy lists agree on one order, higher
 logit first and lower token first among equals (bench-core, conformance.rs).
 */
module Ranking {
  import opened Wrappers
  import opened Floats
  import opened Sorting
  import opened Constants
  import Wire

  type TopLogit = Wire.TopLogit

  predicate AllFinite(logits: seq<TopLogit>) {
    forall i :: 0 <= i < |logits| ==> logits[i].logit.Finite?
  }

  predicate DistinctTokens(logits: seq<TopLogit>) {
    forall i, j :: 0 <= i < j < |logits| ==> logits[i].token != logits[j].token
  }

  predicate Lists(logits: seq<TopLogit>, token: int) {
    exists i :: 0 <= i < |logits| && logits[i].token == token
  }

  // ---- argmax ----------------------------------------------------------------------

  predicate Beats(a: TopLogit, b: TopLogit) {
    Less(b.logit, a.logit) || (Same(a.logit, b.logit) && a.token < b.token)
  }

  function BestOf(logits: seq<TopLogit>): (best: Option<TopLogit>)
    ensures best.None? <==> logits == []
    ensures best.Some? ==> best.value in logits
  {
    if logits == [] then None
    else
      var current := logits[|logits| - 1];
      match BestOf(logits[..|logits| - 1])
      case None => Some(current)
      case Some(best) => if Beats(current, best) then Some(current) else Some(best)
  }

  function ArgmaxOf(logits: seq<TopLogit>): Option<int> {
    match BestOf(logits)
    case None => None
    case Some(best) => Some(best.token)
  }

  lemma {:induction false} BestIsUnbeaten(logits: seq<TopLogit>, i: nat)
    requires AllFinite(logits) && i < |logits|
    ensures !Beats(logits[i], BestOf(logits).value)
  {
    if i < |logits| - 1 {
      BestIsUnbeaten(logits[..|logits| - 1], i);
    }
  }

  /** The token of a maximal logit, the lowest token among them; an empty list has none. */
  method CanonicalArgmax(logits: seq<TopLogit>) returns (r: Option<int>)
    ensures r == ArgmaxOf(logits)
    ensures r.None? <==> logits == []
    ensures AllFinite(logits) && r.Some? ==>
              exists i :: 0 <= i < |logits| && logits[i].token == r.value
                          && forall j :: 0 <= j < |logits| ==> !Beats(logits[j], logits[i])
  {
    var best: Option<TopLogit> := None;
    for k := 0 to |logits|
      invariant best == BestOf(logits[..k])
    {
      var current := logits[k];
      assert logits[..k + 1][..k] == logits[..k];
      match best {
        case None => best := Some(current);
        case Some(b) =>
          if Beats(current, b) {
            best := Some(current);
          }
      }
    }
    assert logits[..|logits|] == logits;
    if AllFinite(logits) && best.Some? {
      forall j | 0 <= j < |logits| ensures !Beats(logits[j], best.value) {
        BestIsUnbeaten(logits, j);
      }
    }
    return match best case None => None case Some(b) => Some(b.token);
  }

  // ---- rank -----------------------------------------------------------------------

  /** Higher logit first, lower token first among equals. */
  predicate RankedBefore(a: TopLogit, b: TopLogit) {
    if a.logit == b.logit then a.token <= b.token else TotalAtMost(b.logit, a.logit)
  }

  lemma RankingIsTotal()
    ensures TotalOrder(RankedBefore)
  {
  }

  function FirstIndexOf(logits: seq<TopLogit>, token: int): (k: nat)
    requires Lists(logits, token)
    ensures k < |logits| && logits[k].token == token && forall i :: 0 <= i < k ==> logits[i].token != token
  {
    if logits[0].token == token then 0
    else
      assert forall i :: 1 <= i < |logits| ==> logits[i] == logits[1..][i - 1];
      1 + FirstIndexOf(logits[1..], token)
  }

  lemma SortKeepsLists(logits: seq<TopLogit>, token: int)
    ensures Lists(Sort(logits, RankedBefore), token) <==> Lists(logits, token)
  {
    var sorted := Sort(logits, RankedBefore);
    if Lists(logits, token) {
      var i :| 0 <= i < |logits| && logits[i].token == token;
      SortKeepsMembers(logits, RankedBefore, logits[i]);
    }
    if Lists(sorted, token) {
      var i :| 0 <= i < |sorted| && sorted[i].token == token;
      SortKeepsMembers(logits, RankedBefore, sorted[i]);
    }
  }

  /** The 1-based position of `token` once the list is sorted, if it is listed. */
  function RankOf(logits: seq<TopLogit>, token: int): (rank: Option<nat>)
    ensures rank.Some? <==> Lists(logits, token)
    ensures rank.Some? ==> 1 <= rank.value <= |logits|
  {
    if !Lists(logits, token) then None
    else
      SortKeepsLists(logits, token);
      SortPermutes(logits, RankedBefore);
      Some(FirstIndexOf(Sort(logits, RankedBefore), token) + 1)
  }

  lemma SortKeepsFinite(s: seq<TopLogit>)
    requires AllFinite(s)
    ensures AllFinite(Sort(s, RankedBefore))
  {
    var sorted := Sort(s, RankedBefore);
    forall j | 0 <= j < |sorted| ensures sorted[j].logit.Finite? {
      SortKeepsMembers(s, RankedBefore, sorted[j]);
    }
  }

  lemma CountOfPrefix(s: seq<TopLogit>, p: TopLogit -> bool, k: nat)
    requires k <= |s| && (forall j :: 0 <= j < k ==> p(s[j])) && (forall j :: k <= j < |s| ==> !p(s[j]))
    ensures Count(s, p) == k
  {
    assert s == s[..k] + s[k..];
    CountConcat(s[..k], s[k..], p);
    CountAll(s[..k], p);
    CountNone(s[k..], p);
  }

  /** The first entry of its token in a sorted list is beaten by exactly the entries before it. */
  lemma PositionCountsBetter(sorted: seq<TopLogit>, k: nat, better: TopLogit -> bool)
    requires AllFinite(sorted) && IsSorted(sorted, RankedBefore) && k < |sorted|
    requires forall j :: 0 <= j < k ==> sorted[j].token != sorted[k].token
    requires forall x :: better(x) == Beats(x, sorted[k])
    ensures Count(sorted, better) == k
  {
    hide Count;
    forall j | 0 <= j < k ensures better(sorted[j]) {
      assert RankedBefore(sorted[j], sorted[k]);
    }
    forall j | k <= j < |sorted| ensures !better(sorted[j]) {
      assert j == k || RankedBefore(sorted[k], sorted[j]);
    }
    CountOfPrefix(sorted, better, k);
  }

  /** No other entry for the same token beats the one at `i`. */
  predicate BestCopy(logits: seq<TopLogit>, i: nat)
    requires i < |logits|
  {
    forall j :: 0 <= j < |logits| && logits[j].token == logits[i].token ==> !Beats(logits[j], logits[i])
  }

  lemma BestCopyExists(logits: seq<TopLogit>, token: int) returns (i: nat)
    requires AllFinite(logits) && Lists(logits, token)
    ensures i < |logits| && logits[i].token == token && BestCopy(logits, i)
  {
    var sorted, k := SortedFirst(logits, token);
    i :| 0 <= i < |logits| && logits[i] == sorted[k];
    forall j | 0 <= j < |logits| && logits[j].token == token ensures !Beats(logits[j], logits[i]) {
      SortKeepsMembers(logits, RankedBefore, logits[j]);
      var l :| 0 <= l < |sorted| && sorted[l] == logits[j];
      assert l == k || RankedBefore(sorted[k], sorted[l]);
    }
  }

  /** Where a listed token first appears once the list is sorted, which is what its rank counts to. */
  lemma SortedFirst(logits: seq<TopLogit>, token: int) returns (sorted: seq<TopLogit>, k: nat)
    requires AllFinite(logits) && Lists(logits, token)
    ensures sorted == Sort(logits, RankedBefore) && IsSorted(sorted, RankedBefore) && AllFinite(sorted)
    ensures k < |sorted| && sorted[k].token == token && sorted[k] in logits
    ensures forall j :: 0 <= j < k ==> sorted[j].token != token
    ensures RankOf(logits, token) == Some(k + 1)
  {
    hide Sort, RankedBefore, AllFinite;
    sorted := Sort(logits, RankedBefore);
    RankingIsTotal();
    SortSorts(logits, RankedBefore);
    SortKeepsFinite(logits);
    SortKeepsLists(logits, token);
    k := FirstIndexOf(sorted, token);
    SortKeepsMembers(logits, RankedBefore, sorted[k]);
  }

  /** The best copy of a token is the one that sorts first. */
  lemma BestCopySortsFirst(logits: seq<TopLogit>, i: nat, k: nat)
    requires AllFinite(logits) && i < |logits| && BestCopy(logits, i)
    requires var sorted := Sort(logits, RankedBefore);
             k < |sorted| && sorted[k].token == logits[i].token && sorted[k] in logits && IsSorted(sorted, RankedBefore)
             && forall j :: 0 <= j < k ==> sorted[j].token != logits[i].token
    ensures Sort(logits, RankedBefore)[k] == logits[i]
  {
    hide Sort;
    var sorted := Sort(logits, RankedBefore);
    SortKeepsMembers(logits, RankedBefore, logits[i]);
    var l :| 0 <= l < |sorted| && sorted[l] == logits[i];
    assert l == k || RankedBefore(sorted[k], sorted[l]);
    var j :| 0 <= j < |logits| && logits[j] == sorted[k];
    assert !Beats(logits[j], logits[i]);
  }

  /** Over finite logits, a token's rank is one more than the number of entries that beat its best copy. */
  lemma RankCountsBetter(logits: seq<TopLogit>, i: nat)
    requires AllFinite(logits) && i < |logits| && BestCopy(logits, i)
    ensures RankOf(logits, logits[i].token) == Some(1 + Count(logits, x => Beats(x, logits[i])))
  {
    hide Sort, Count, IsSorted, Beats, RankedBefore, RankOf, AllFinite, BestCopy;
    var better: TopLogit -> bool := x => Beats(x, logits[i]);
    assert Lists(logits, logits[i].token);
    var sorted, k := SortedFirst(logits, logits[i].token);
    BestCopySortsFirst(logits, i, k);
    PositionCountsBetter(sorted, k, better);
    RankingIsTotal();
    CountOfSort(logits, RankedBefore, better);
    CountExtensional(logits, better, x => Beats(x, logits[i]));
  }

  lemma {:induction false} CountExtensional<T(!new)>(s: seq<T>, p: T -> bool, q: T -> bool)
    requires forall x :: p(x) == q(x)
    ensures Count(s, p) == Count(s, q)
  {
    if s != [] {
      CountExtensional(s[1..], p, q);
    }
  }

  /** Rank 1 and canonical argmax are the same token, repeated tokens or not. */
  lemma RankOneIffArgmax(logits: seq<TopLogit>, token: int)
    requires AllFinite(logits)
    ensures RankOf(logits, token) == Some(1) <==> ArgmaxOf(logits) == Some(token)
  {
    if logits != [] {
      BestLeadsSorted(logits);
      SortKeepsLists(logits, token);
      assert Lists(logits, BestOf(logits).value.token);
    }
  }

  lemma BestLeadsSorted(logits: seq<TopLogit>)
    requires AllFinite(logits) && logits != []
    ensures Sort(logits, RankedBefore) != [] && Sort(logits, RankedBefore)[0] == BestOf(logits).value
  {
    var best, sorted := BestOf(logits).value, Sort(logits, RankedBefore);
    RankingIsTotal();
    SortSorts(logits, RankedBefore);
    SortPermutes(logits, RankedBefore);
    SortKeepsFinite(logits);
    SortKeepsMembers(logits, RankedBefore, sorted[0]);
    SortKeepsMembers(logits, RankedBefore, best);
    var i :| 0 <= i < |logits| && logits[i] == sorted[0];
    BestIsUnbeaten(logits, i);
    var j :| 0 <= j < |sorted| && sorted[j] == best;
    assert j == 0 || RankedBefore(sorted[0], sorted[j]);
  }

  // ---- maximum logit ----------------------------------------------------------------

  function MaxLogit(logits: seq<TopLogit>): Option<Float> {
    if logits == [] then None
    else
      var current := logits[|logits| - 1].logit;
      match MaxLogit(logits[..|logits| - 1])
      case None => Some(current)
      case Some(m) => Some(if Less(m, current) then current else m)
  }

  /** The folded maximum is the argmax entry's own logit. */
  lemma {:induction false} MaxIsBest(logits: seq<TopLogit>)
    requires AllFinite(logits) && logits != []
    ensures MaxLogit(logits) == Some(BestOf(logits).value.logit)
  {
    if 1 < |logits| {
      MaxIsBest(logits[..|logits| - 1]);
    }
  }

  /** The logit of the first entry for `token`. */
  function LogitOf(logits: seq<TopLogit>, token: int): (r: Option<Float>)
    ensures r.Some? <==> Lists(logits, token)
    ensures r.Some? ==> r == Some(logits[FirstIndexOf(logits, token)].logit)
  {
    if logits == [] then None
    else if logits[0].token == token then Some(logits[0].logit)
    else
      assert forall i :: 1 <= i < |logits| ==> logits[i] == logits[1..][i - 1];
      LogitOf(logits[1..], token)
  }

  // ---- trustworthy lists ---------------------------------------------------------------

  predicate InVocabulary(token: int) {
    0 <= token < VOCAB_SIZE
  }

  /** A well-formed worker list: led by its own token, in vocabulary, finite, distinct and strictly ranked. */
  predicate Trustworthy(logits: seq<TopLogit>, reported: int) {
    && 0 < |logits| <= TOP_LOGITS
    && logits[0].token == reported
    && (forall i :: 0 <= i < |logits| ==> InVocabulary(logits[i].token))
    && AllFinite(logits)
    && DistinctTokens(logits)
    && (forall i, j :: 0 <= i < j < |logits| ==> Beats(logits[i], logits[j]))
  }

  /** Adjacent steps suffice: strict ranking is transitive over finite logits. */
  lemma {:induction false} AdjacentRanksAll(logits: seq<TopLogit>, i: nat, j: nat)
    requires i < j < |logits| && AllFinite(logits)
    requires forall k :: 0 < k <= j ==> Beats(logits[k - 1], logits[k])
    ensures Beats(logits[i], logits[j])
    decreases j
  {
    assert Beats(logits[j - 1], logits[j]);
    if i < j - 1 {
      AdjacentRanksAll(logits, i, j - 1);
    }
  }

  method TopLogitsTrustworthy(logits: seq<TopLogit>, reported: int) returns (ok: bool)
    ensures ok <==> Trustworthy(logits, reported)
  {
    hide Beats;
    if logits == [] || TOP_LOGITS < |logits| {
      return false;
    }
    if logits[0].token != reported {
      return false;
    }
    var seen: set<int> := {};
    for i := 0 to |logits|
      invariant forall t :: t in seen <==> exists k :: 0 <= k < i && logits[k].token == t
      invariant forall k :: 0 <= k < i ==> InVocabulary(logits[k].token) && logits[k].logit.Finite?
      invariant forall k, l :: 0 <= k < l < i ==> logits[k].token != logits[l].token
      invariant forall k :: 0 < k < i ==> Beats(logits[k - 1], logits[k])
    {
      var item := logits[i];
      if item.token < 0 || VOCAB_SIZE <= item.token {
        return false;
      }
      if !item.logit.Finite? {
        return false;
      }
      if item.token in seen {
        return false;
      }
      seen := seen + {item.token};
      if 0 < i && !Beats(logits[i - 1], item) {
        return false;
      }
    }
    forall i, j | 0 <= i < j < |logits| ensures Beats(logits[i], logits[j]) {
      AdjacentRanksAll(logits, i, j);
    }
    return true;
  }

  /** A trustworthy list is sorted already: its first entry is its argmax and holds its maximum. */
  lemma TrustworthyLeadsWithArgmax(logits: seq<TopLogit>, reported: int)
    requires Trustworthy(logits, reported)
    ensures Sort(logits, RankedBefore) == logits
    ensures ArgmaxOf(logits) == Some(reported) && RankOf(logits, reported) == Some(1)
    ensures MaxLogit(logits) == Some(logits[0].logit)
  {
    RankingIsTotal();
    assert IsSorted(logits, RankedBefore);
    SortSorts(logits, RankedBefore);
    SortPermutes(logits, RankedBefore);
    SortedIsUnique(Sort(logits, RankedBefore), logits, RankedBefore);
    BestLeadsSorted(logits);
    RankOneIffArgmax(logits, reported);
    MaxIsBest(logits);
  }
}
