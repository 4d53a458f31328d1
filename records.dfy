/** Mod records. The source keeps each mod as a Python dict: the attributes of its
    `<Mod>` element in the game's config (`name`, `enabled`, `workshop_item_id`, ...),
    plus the keys the manager adds (`_display_name`, `_is_link`, `user_tags`,
    `workshop_tags`). A record is modelled as that dict. */
module Records {
  import opened Text

  datatype Option<T> = None | Some(value: T)

  /** A value stored under one key of a record. */
  datatype Value = Str(s: string) | Flag(b: bool) | Strs(items: seq<string>)

  type Record = map<string, Value>

  /** The attributes of one `<Mod>` element as parsed from the config file. */
  type Attrs = map<string, string>

  const NameKey := "name"
  const EnabledKey := "enabled"
  const WorkshopIdKey := "workshop_item_id"
  const DisplayKey := "_display_name"
  const LinkKey := "_is_link"
  const UserTagsKey := "user_tags"
  const WorkshopTagsKey := "workshop_tags"

  /** `mod['name']` is a string: every access the source makes to it succeeds. */
  predicate Named(r: Record) {
    NameKey in r && r[NameKey].Str?
  }

  function NameOf(r: Record): string
    requires Named(r)
  {
    r[NameKey].s
  }

  predicate AllNamed(mods: seq<Record>) {
    forall i :: 0 <= i < |mods| ==> Named(mods[i])
  }

  /** `mod.get(key, [])` for a tag list. */
  function TagList(r: Record, key: string): seq<string> {
    if key in r && r[key].Strs? then r[key].items else []
  }

  /** The two keys the tag editors work on. */
  predicate TagKey(key: string) {
    key == UserTagsKey || key == WorkshopTagsKey
  }

  /** A record as the manager keeps it after loading: named, with both tag lists. */
  predicate WellFormed(r: Record) {
    Named(r) && UserTagsKey in r && r[UserTagsKey].Strs? && WorkshopTagsKey in r && r[WorkshopTagsKey].Strs?
  }

  /** `mod[key] = tags` for one of the two tag lists. */
  function SetTags(r: Record, key: string, tags: seq<string>): (t: Record)
    requires TagKey(key)
    ensures t.Keys == r.Keys + {key} && TagList(t, key) == tags
    ensures forall k :: k in r && k != key ==> t[k] == r[k]
    ensures Named(r) ==> Named(t) && NameOf(t) == NameOf(r)
    ensures WellFormed(r) ==> WellFormed(t)
  {
    r[key := Strs(tags)]
  }

  /** `mod.attrib`: every attribute becomes a string value. */
  function FromAttrs(a: Attrs): (r: Record)
    ensures r.Keys == a.Keys
    ensures forall k :: k in a ==> r[k] == Str(a[k])
  {
    map k | k in a :: Str(a[k])
  }

  /** `mod.get('workshop_item_id', '0') == '0'`: no subscription id recorded yet. */
  predicate IdUnset(r: Record) {
    WorkshopIdKey !in r || r[WorkshopIdKey] == Str("0")
  }

  /** Row indices into a record list: strictly ascending and in range. */
  predicate Rows(rows: seq<nat>, n: nat) {
    (forall k :: 0 <= k < |rows| ==> rows[k] < n) &&
    (forall k, l :: 0 <= k < l < |rows| ==> rows[k] < rows[l])
  }

  /** The rows below `n` whose entry in `keep` is true, in order. */
  function RowsWhere(keep: seq<bool>, n: nat): seq<nat>
    requires n <= |keep|
  {
    if n == 0 then [] else RowsWhere(keep, n - 1) + (if keep[n - 1] then [n - 1] else [])
  }

  /** They are ascending rows below `n`. */
  lemma {:induction false} RowsWhereAscending(keep: seq<bool>, n: nat)
    requires n <= |keep|
    ensures Rows(RowsWhere(keep, n), n)
  {
    if n > 0 {
      RowsWhereAscending(keep, n - 1);
      var prev := RowsWhere(keep, n - 1);
      var r := RowsWhere(keep, n);
      assert forall k :: 0 <= k < |prev| ==> r[k] == prev[k];
    }
  }

  /** A row below `n` is among them exactly when its entry is true. */
  lemma {:induction false} RowsWhereMembers(keep: seq<bool>, n: nat)
    requires n <= |keep|
    ensures forall i :: 0 <= i < n ==> (i in RowsWhere(keep, n) <==> keep[i])
  {
    if n > 0 {
      RowsWhereMembers(keep, n - 1);
      RowsWhereAscending(keep, n - 1);
    }
  }

  /** Every row of a list of `n` records, in order: `list(self.mods_data)` as a view. */
  function AllRows(n: nat): (rows: seq<nat>)
    ensures |rows| == n && Rows(rows, n)
    ensures forall i :: 0 <= i < n ==> rows[i] == i
  {
    seq(n, i requires 0 <= i < n => i)
  }

  /** The records a view shows, in order. */
  function Visible(mods: seq<Record>, rows: seq<nat>): (v: seq<Record>)
    requires Rows(rows, |mods|)
    ensures |v| == |rows|
    ensures forall k :: 0 <= k < |rows| ==> v[k] == mods[rows[k]]
  {
    seq(|rows|, k requires 0 <= k < |rows| => mods[rows[k]])
  }
}
