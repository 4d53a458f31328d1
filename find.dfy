/** The find bar, `_find` (NoitaModManager.py:424-472): it marks every visible row whose
    display name and tags contain the lower-cased find text and moves the focus to the
    next or previous such row, wrapping around. */
module Find {
  import opened Text
  import opened Records

  /** The text a row is searched in: display name (or nothing), the user tags joined by
      commas, then the workshop tags joined by commas, separated by spaces and
      lower-cased. Tags are not trimmed here. */
  function FindText(r: Record): string {
    var disp := if DisplayKey in r && r[DisplayKey].Str? then r[DisplayKey].s else "";
    Lower(disp + " " + Join(TagList(r, UserTagsKey), ",") + " " + Join(TagList(r, WorkshopTagsKey), ","))
  }

  /** For each record, whether its find text contains `q`. */
  function Hits(recs: seq<Record>, q: string): (h: seq<bool>)
    ensures |h| == |recs| && forall i :: 0 <= i < |recs| ==> h[i] == Contains(FindText(recs[i]), q)
  {
    seq(|recs|, i requires 0 <= i < |recs| => Contains(FindText(recs[i]), q))
  }

  /** The rows among the first `n` whose find text contains `q`, in order. */
  function FindHits(recs: seq<Record>, q: string, n: nat): seq<nat>
    requires n <= |recs|
  {
    RowsWhere(Hits(recs, q), n)
  }

  /** The hits are ascending rows below `n`, and a row is a hit exactly when its find text
      contains `q`. */
  lemma FindHitsSpec(recs: seq<Record>, q: string, n: nat)
    requires n <= |recs|
    ensures Rows(FindHits(recs, q, n), n)
    ensures forall i :: 0 <= i < n ==> (i in FindHits(recs, q, n) <==> Contains(FindText(recs[i]), q))
  {
    RowsWhereAscending(Hits(recs, q), n);
    RowsWhereMembers(Hits(recs, q), n);
  }

  /** The loop collecting `matches`. */
  method FindMatches(recs: seq<Record>, q: string) returns (matches: seq<nat>)
    ensures matches == FindHits(recs, q, |recs|)
  {
    matches := [];
    for i := 0 to |recs|
      invariant matches == FindHits(recs, q, i)
    {
      var text := FindText(recs[i]);
      if Contains(text, q) {
        matches := matches + [i];
      }
    }
  }

  /** In an ascending list an element's position is its index. */
  lemma PositionInRows(s: seq<nat>, n: nat, k: nat)
    requires Rows(s, n) && k < |s|
    ensures IndexOf(s, s[k]) == k
  {
  }

  /** What the find bar shows afterwards: the counter reset to `0/0`, the counter left
      as it was, or the focus on `row` with the counter at `position/count`. */
  datatype FindResult = ShowZero | Unchanged | Focus(row: nat, position: nat, count: nat)

  /** The navigation step over a non-empty ascending list of matching rows, from the
      focused row `current` (None when no row has the focus), in `direction` (1 forward,
      -1 back). Python's `%` on a positive modulus agrees with the Euclidean `%` used
      here. */
  function Navigate(matches: seq<nat>, n: nat, current: Option<nat>, direction: int): (res: FindResult)
    requires matches != [] && Rows(matches, n)
    ensures res.Focus? && res.count == |matches| && 1 <= res.position <= res.count
    ensures matches[res.position - 1] == res.row
  {
    var k :=
      if current.Some? && current.value in matches then (IndexOf(matches, current.value) + direction) % |matches|
      else if direction > 0 then 0
      else |matches| - 1;
    var target := matches[k];
    PositionInRows(matches, n, k);
    Focus(target, IndexOf(matches, target) + 1, |matches|)
  }

  /** One step of the find bar over the visible records `recs`. */
  function Find(recs: seq<Record>, query: string, current: Option<nat>, direction: int): (res: FindResult)
    ensures res.ShowZero? <==> Lower(query) == [] || (recs != [] && FindHits(recs, Lower(query), |recs|) == [])
    ensures res.Unchanged? <==> Lower(query) != [] && recs == []
    ensures res.Focus? ==> res.row < |recs| && Contains(FindText(recs[res.row]), Lower(query))
  {
    var q := Lower(query);
    if q == [] then ShowZero
    else if |recs| == 0 then Unchanged
    else
      var matches := FindHits(recs, q, |recs|);
      FindHitsSpec(recs, q, |recs|);
      if matches == [] then ShowZero
      else
        var res := Navigate(matches, |recs|, current, direction);
        assert res.row in matches;
        res
  }

  /** Without a focused match, forward starts at the first match and back at the last. */
  lemma NavigateFromNothing(matches: seq<nat>, n: nat)
    requires matches != [] && Rows(matches, n)
    ensures Navigate(matches, n, None, 1) == Focus(matches[0], 1, |matches|)
    ensures Navigate(matches, n, None, -1) == Focus(matches[|matches| - 1], |matches|, |matches|)
  {
    PositionInRows(matches, n, 0);
    PositionInRows(matches, n, |matches| - 1);
  }

  /** From the match at index `k`, a step of `direction` focuses the match at index
      `(k + direction) % count`. */
  lemma NavigateAt(matches: seq<nat>, n: nat, k: nat, direction: int)
    requires matches != [] && Rows(matches, n) && k < |matches|
    ensures var j := (k + direction) % |matches|;
            Navigate(matches, n, Some(matches[k]), direction) == Focus(matches[j], j + 1, |matches|)
  {
    PositionInRows(matches, n, k);
    PositionInRows(matches, n, (k + direction) % |matches|);
  }

  /** Python's `(k + 1) % m` on a match index, for `NavigateNext`. */
  lemma WrapForward(k: nat, m: nat)
    requires k < m
    ensures (k + 1) % m == if k + 1 < m then k + 1 else 0
  {
  }

  /** One step back undoes one step forward modulo `m`, for `NavigateForwardThenBack`. */
  lemma WrapBack(k: nat, m: nat)
    requires k < m
    ensures ((if k + 1 < m then k + 1 else 0) + -1) % m == k
  {
  }

  /** From a focused match, forward goes to the next match, wrapping from the last to the
      first. */
  lemma NavigateNext(matches: seq<nat>, n: nat, k: nat)
    requires matches != [] && Rows(matches, n) && k < |matches|
    ensures var next := if k + 1 < |matches| then k + 1 else 0;
            Navigate(matches, n, Some(matches[k]), 1) == Focus(matches[next], next + 1, |matches|)
  {
    NavigateAt(matches, n, k, 1);
    WrapForward(k, |matches|);
  }

  /** Forward then back returns the focus to the match it started from. */
  lemma NavigateForwardThenBack(matches: seq<nat>, n: nat, k: nat)
    requires matches != [] && Rows(matches, n) && k < |matches|
    ensures Navigate(matches, n, Some(Navigate(matches, n, Some(matches[k]), 1).row), -1) == Focus(matches[k], k + 1, |matches|)
  {
    var m := |matches|;
    NavigateNext(matches, n, k);
    var next := if k + 1 < m then k + 1 else 0;
    NavigateAt(matches, n, next, -1);
    WrapBack(k, m);
  }
}
