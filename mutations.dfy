/** The edits a user makes to the mod list: dragging a row to a new place
    (`DragManager.on_release`, NoitaModManager.py:168-196), toggling one mod
    (NoitaModManager.py:726-730, 965-971) and enabling or disabling every shown mod
    (`set_all_enabled`, NoitaModManager.py:980-984). */
module Mutations {
  import opened Records

  /** The insertion index of a drop: one further down when dropped on the lower half of
      the target row, then one less when that lies past the dragged row, since popping
      the dragged row first shifts the later rows up. */
  function ReorderTarget(src: nat, dst: nat, below: bool): (t: nat)
    ensures src < dst ==> t == (if below then dst else dst - 1)
    ensures dst < src ==> t == (if below then dst + 1 else dst)
  {
    var d := if below then dst + 1 else dst;
    if d > src then d - 1 else d
  }

  /** `item = s.pop(from); s.insert(to, item)`. */
  function Move<T>(s: seq<T>, from: nat, to: nat): (r: seq<T>)
    requires from < |s| && to < |s|
    ensures |r| == |s| && r[to] == s[from]
    ensures multiset(r) == multiset(s)
  {
    var rest := s[..from] + s[from + 1..];
    assert s == s[..from] + [s[from]] + s[from + 1..];
    assert rest == rest[..to] + rest[to..];
    assert multiset(s) == multiset(s[..from]) + multiset{s[from]} + multiset(s[from + 1..]);
    assert multiset(rest) == multiset(rest[..to]) + multiset(rest[to..]);
    assert multiset(rest) == multiset(s[..from]) + multiset(s[from + 1..]);
    var r := rest[..to] + [s[from]] + rest[to..];
    assert multiset(r) == multiset(rest[..to]) + multiset{s[from]} + multiset(rest[to..]);
    assert multiset(r) == multiset(rest) + multiset{s[from]};
    assert multiset(s) == multiset(rest) + multiset{s[from]};
    r
  }

  /** `s` without entry `i`. */
  function Without<T>(s: seq<T>, i: nat): (r: seq<T>)
    requires i < |s|
    ensures |r| == |s| - 1
  {
    s[..i] + s[i + 1..]
  }

  /** Moving keeps every other entry in its relative order: taking the moved entry out
      again leaves the list with it taken out of its old place. */
  lemma MoveKeepsOrder<T>(s: seq<T>, from: nat, to: nat)
    requires from < |s| && to < |s|
    ensures Without(Move(s, from, to), to) == Without(s, from)
  {
    var rest := s[..from] + s[from + 1..];
    var r := Move(s, from, to);
    assert r[..to] == rest[..to];
    assert r[to + 1..] == rest[to..];
    assert rest == rest[..to] + rest[to..];
  }

  /** The drop as `on_release` performs it: the tree's row ids, which are positions in
      the whole list because a drag only starts while the search box is empty
      (NoitaModManager.py:129), are popped and inserted at. */
  function Drop<T>(s: seq<T>, src: nat, dst: nat, below: bool): (r: seq<T>)
    requires src < |s| && dst < |s| && src != dst
    ensures |r| == |s| && multiset(r) == multiset(s)
  {
    Move(s, src, ReorderTarget(src, dst, below))
  }

  /** Dropping a row on a different row puts it right above the target row, or right
      below it when dropped on the target's lower half. */
  lemma DropLandsNextToTarget<T>(s: seq<T>, src: nat, dst: nat, below: bool)
    requires src < |s| && dst < |s| && src != dst
    ensures var t := ReorderTarget(src, dst, below);
            t < |s| && Drop(s, src, dst, below)[t] == s[src] &&
            (below ==> t > 0 && Drop(s, src, dst, below)[t - 1] == s[dst]) &&
            (!below ==> t + 1 < |s| && Drop(s, src, dst, below)[t + 1] == s[dst])
  {
    var t := ReorderTarget(src, dst, below);
    var rest := s[..src] + s[src + 1..];
    var r := Move(s, src, t);
    assert r == rest[..t] + [s[src]] + rest[t..];
    if dst < src {
      assert rest[dst] == s[dst];
    } else {
      assert rest[dst - 1] == s[dst];
    }
  }

  /** `mod.get('enabled', '0')`. */
  function EnabledValue(r: Record): Value {
    if EnabledKey in r then r[EnabledKey] else Str("0")
  }

  /** The checkbox click: `'0'` (or no value) becomes `'1'`, anything else `'0'`. */
  function Toggled(r: Record): (t: Record)
    ensures t.Keys == r.Keys + {EnabledKey}
    ensures t[EnabledKey] == Str("1") <==> EnabledValue(r) == Str("0")
    ensures t[EnabledKey] == Str("0") <==> EnabledValue(r) != Str("0")
    ensures forall k :: k in r && k != EnabledKey ==> t[k] == r[k]
  {
    r[EnabledKey := Str(if EnabledValue(r) == Str("0") then "1" else "0")]
  }

  /** Toggling twice restores a record whose `enabled` is `'0'` or `'1'`. */
  lemma ToggleTwice(r: Record)
    requires EnabledKey in r && (r[EnabledKey] == Str("0") || r[EnabledKey] == Str("1"))
    ensures Toggled(Toggled(r)) == r
  {
    assert Toggled(Toggled(r)).Keys == r.Keys;
  }

  /** `for m in self.filtered_data: m['enabled'] = val`: sets `enabled` on the shown rows
      and leaves every other record alone. */
  method EnableRows(mods: seq<Record>, rows: seq<nat>, val: string) returns (out: seq<Record>)
    requires Rows(rows, |mods|)
    ensures |out| == |mods|
    ensures forall i :: 0 <= i < |mods| && i in rows ==> out[i] == mods[i][EnabledKey := Str(val)]
    ensures forall i :: 0 <= i < |mods| && i !in rows ==> out[i] == mods[i]
  {
    out := mods;
    for k := 0 to |rows|
      invariant |out| == |mods|
      invariant forall i :: 0 <= i < |mods| && i in rows[..k] ==> out[i] == mods[i][EnabledKey := Str(val)]
      invariant forall i :: 0 <= i < |mods| && i !in rows[..k] ==> out[i] == mods[i]
    {
      assert rows[..k + 1] == rows[..k] + [rows[k]];
      var i := rows[k];
      out := out[i := out[i][EnabledKey := Str(val)]];
    }
    assert rows[..|rows|] == rows;
  }
}
