/** The selection loop shared by find_best_move (X_O_game.py) and
    pick_best_move (connect4.py): start from -inf, walk the candidates in
    order, and keep a candidate only when its score is strictly greater than
    the best so far. */
module Selection {
  import opened Wrappers
  import opened ExtInts

  /** The best score and the kept candidate after the first k candidates. */
  function FirstBest<T>(items: seq<T>, scores: seq<int>, k: nat): (ExtInt, Option<T>)
    requires |scores| == |items| && k <= |items|
  {
    if k == 0 then (NegInf, None)
    else
      var prev := FirstBest(items, scores, k - 1);
      if Lt(prev.0, Fin(scores[k - 1])) then (Fin(scores[k - 1]), Some(items[k - 1])) else prev
  }

  /** The kept candidate is the first, among the first k, of greatest score:
      every earlier candidate scores strictly less and every later one no more. */
  lemma {:induction false} FirstBestIsFirstMaximum<T>(items: seq<T>, scores: seq<int>, k: nat)
    requires |scores| == |items| && k <= |items|
    ensures k == 0 <==> FirstBest(items, scores, k).1.None?
    ensures k > 0 ==>
      exists a :: 0 <= a < k && FirstBest(items, scores, k) == (Fin(scores[a]), Some(items[a]))
        && (forall b :: 0 <= b < a ==> scores[b] < scores[a])
        && (forall b :: a < b < k ==> scores[b] <= scores[a])
  {
    if k == 1 {
      assert FirstBest(items, scores, k) == (Fin(scores[0]), Some(items[0]));
    } else if k > 1 {
      FirstBestIsFirstMaximum(items, scores, k - 1);
      var prev := FirstBest(items, scores, k - 1);
      var a' :| 0 <= a' < k - 1 && prev == (Fin(scores[a']), Some(items[a']))
        && (forall b :: 0 <= b < a' ==> scores[b] < scores[a'])
        && (forall b :: a' < b < k - 1 ==> scores[b] <= scores[a']);
      var s := scores[k - 1];
      if scores[a'] < s {
        assert Lt(prev.0, Fin(s));
        assert FirstBest(items, scores, k) == (Fin(s), Some(items[k - 1]));
        assert forall b :: 0 <= b < k - 1 ==> scores[b] < s;
        assert k - 1 < k;
      } else {
        assert !Lt(prev.0, Fin(s));
        assert FirstBest(items, scores, k) == prev;
        assert forall b :: a' < b < k ==> scores[b] <= scores[a'];
      }
    }
  }
}
