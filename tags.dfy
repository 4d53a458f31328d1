/** Tags: the tag store, attaching stored tags to records, the three tag-list editors, the
    merge of fetched workshop tags and the tag cloud. */
module Tags {
  import opened Text
  import opened Records

  /** One tag-store entry: `{"user_tags": [...], "workshop_tags": [...]}`. */
  type StoreEntry = map<string, seq<string>>

  /** `TAGS_DATA`: mod folder name to its entry. A missing or unreadable store file is
      the empty map. */
  type TagStore = map<string, StoreEntry>

  /** Every entry non-empty and already trimmed. */
  predicate CleanTags(ts: seq<string>) {
    forall i :: 0 <= i < |ts| ==> ts[i] != [] && Stripped(ts[i])
  }

  /** Every tag trimmed, blanks included. */
  function Trimmed(ts: seq<string>): (r: seq<string>)
    ensures |r| == |ts|
    ensures forall i :: 0 <= i < |ts| ==> r[i] == Strip(ts[i])
  {
    seq(|ts|, i requires 0 <= i < |ts| => Strip(ts[i]))
  }

  /** The non-empty entries, in order. */
  function NonBlank(xs: seq<string>): (r: seq<string>)
    ensures forall k :: 0 <= k < |r| ==> r[k] != [] && r[k] in xs
    ensures forall u :: u in xs && u != [] ==> u in r
  {
    if xs == [] then []
    else
      var rest := NonBlank(xs[1..]);
      assert forall u :: u in rest ==> u in xs;
      if xs[0] != [] then [xs[0]] + rest else rest
  }

  /** `[t.strip() for t in ts if t.strip()]`: trims every tag and drops the blank ones,
      keeping order. */
  function Clean(ts: seq<string>): (r: seq<string>)
    ensures CleanTags(r)
  {
    var xs := Trimmed(ts);
    var r := NonBlank(xs);
    assert CleanTags(r) by {
      forall k | 0 <= k < |r| ensures r[k] != [] && Stripped(r[k]) {
        var i :| 0 <= i < |xs| && xs[i] == r[k];
        StripIsStripped(ts[i]);
      }
    }
    r
  }

  /** A tag survives cleaning exactly as the trimmed form of some non-blank input tag. */
  lemma CleanMembers(ts: seq<string>, u: string)
    ensures u in Clean(ts) <==> u != [] && u in Trimmed(ts)
  {
    var xs := Trimmed(ts);
    if u in Clean(ts) {
      assert u in NonBlank(xs);
    }
  }

  /** Cleaning an already clean list keeps every one of its tags. */
  lemma CleanKeepsClean(ts: seq<string>)
    requires CleanTags(ts)
    ensures forall t :: t in ts ==> t in Clean(ts)
  {
    forall t | t in ts ensures t in Clean(ts) {
      var i :| 0 <= i < |ts| && ts[i] == t;
      StripKeepsStripped(t);
      assert Trimmed(ts)[i] == t;
      CleanMembers(ts, t);
    }
  }

  lemma CleanTagsConcat(a: seq<string>, b: seq<string>)
    requires CleanTags(a) && CleanTags(b)
    ensures CleanTags(a + b)
  {
    forall i | 0 <= i < |a + b| ensures (a + b)[i] != [] && Stripped((a + b)[i]) {
      if i < |a| { assert (a + b)[i] == a[i]; } else { assert (a + b)[i] == b[i - |a|]; }
    }
  }

  /** `TAGS_DATA[name].get(key, [])`, or nothing when the name has no entry. */
  function StoreTags(store: TagStore, name: string, key: string): seq<string> {
    if name in store && key in store[name] then store[name][key] else []
  }

  /** The tag-merge step for one record (NoitaModManager.py:658-665): both tag lists are
      set from the store entry under the record's exact name, cleaned, or emptied when the
      store has no entry. */
  function WithTags(r: Record, store: TagStore): (t: Record)
    requires Named(r)
    ensures t.Keys == r.Keys + {UserTagsKey, WorkshopTagsKey}
    ensures forall k :: k in r && !TagKey(k) ==> t[k] == r[k]
    ensures WellFormed(t)
    ensures CleanTags(TagList(t, UserTagsKey)) && CleanTags(TagList(t, WorkshopTagsKey))
    ensures forall k :: TagKey(k) ==> TagList(t, k) == Clean(StoreTags(store, NameOf(r), k))
  {
    var name := NameOf(r);
    if name in store then
      r[UserTagsKey := Strs(Clean(StoreTags(store, name, UserTagsKey)))]
       [WorkshopTagsKey := Strs(Clean(StoreTags(store, name, WorkshopTagsKey)))]
    else
      r[UserTagsKey := Strs([])][WorkshopTagsKey := Strs([])]
  }

  /** A tag is attached to a record exactly when it is the trimmed form of a non-blank
      tag stored under the record's exact name; a name the store lacks gets no tags. */
  lemma StoredTagsAttached(r: Record, store: TagStore, key: string, u: string)
    requires Named(r) && TagKey(key)
    ensures var name := NameOf(r);
            u in TagList(WithTags(r, store), key) <==>
              name in store && key in store[name] && u != [] && u in Trimmed(store[name][key])
    ensures NameOf(r) !in store ==> TagList(WithTags(r, store), key) == []
  {
    CleanMembers(StoreTags(store, NameOf(r), key), u);
  }

  /** The tag-merge loop shared by `load_data` and `load_preset`
      (NoitaModManager.py:658-665, 1076-1083): every record in place, in order. */
  method AttachTags(mods: seq<Record>, store: TagStore) returns (out: seq<Record>)
    requires AllNamed(mods)
    ensures |out| == |mods|
    ensures forall i :: 0 <= i < |mods| ==> out[i] == WithTags(mods[i], store)
  {
    out := mods;
    for i := 0 to |mods|
      invariant |out| == |mods|
      invariant forall j :: 0 <= j < i ==> out[j] == WithTags(mods[j], store)
      invariant forall j :: i <= j < |mods| ==> out[j] == mods[j]
    {
      out := out[i := WithTags(out[i], store)];
    }
  }

  /** The outcome of one tag editor action: the new list, and whether `save_changes` ran
      (and so wrote the list through to the tag store). */
  datatype Edit = Edit(tags: seq<string>, saved: bool)

  /** `delete_tag` (NoitaModManager.py:806-811): removes entry `index` when it is in range;
      otherwise nothing happens. */
  function DeleteTag(tags: seq<string>, index: int): (e: Edit)
    ensures e.saved <==> 0 <= index < |tags|
    ensures !e.saved ==> e.tags == tags
    ensures e.saved ==> |e.tags| == |tags| - 1 && multiset(e.tags) + multiset{tags[index]} == multiset(tags)
    ensures e.saved ==> forall j :: 0 <= j < index ==> e.tags[j] == tags[j]
    ensures e.saved ==> forall j :: index <= j < |e.tags| ==> e.tags[j] == tags[j + 1]
    ensures Distinct(tags) ==> Distinct(e.tags)
    ensures CleanTags(tags) ==> CleanTags(e.tags)
  {
    if 0 <= index < |tags| then
      RemoveKeeps(tags, index);
      Edit(tags[..index] + tags[index + 1..], true)
    else Edit(tags, false)
  }

  lemma RemoveKeeps(tags: seq<string>, index: nat)
    requires index < |tags|
    ensures var r := tags[..index] + tags[index + 1..];
            multiset(r) + multiset{tags[index]} == multiset(tags) &&
            (Distinct(tags) ==> Distinct(r)) && (CleanTags(tags) ==> CleanTags(r))
  {
    var r := tags[..index] + tags[index + 1..];
    assert tags == tags[..index] + [tags[index]] + tags[index + 1..];
    assert forall k :: 0 <= k < |r| ==> r[k] == tags[if k < index then k else k + 1];
  }

  lemma ReplaceKeeps(tags: seq<string>, index: nat, x: string)
    requires index < |tags| && (x !in tags || IndexOf(tags, x) == index)
    ensures x !in tags[..index]
    ensures Distinct(tags) ==> Distinct(tags[index := x])
    ensures CleanTags(tags) && x != [] && Stripped(x) ==> CleanTags(tags[index := x])
  {
  }

  lemma AppendKeeps(tags: seq<string>, x: string)
    requires x !in tags
    ensures Distinct(tags) ==> Distinct(tags + [x])
    ensures CleanTags(tags) && x != [] && Stripped(x) ==> CleanTags(tags + [x])
  {
  }

  /** `finish_edit` (NoitaModManager.py:842-859): the entered text, trimmed, replaces entry
      `index` when it is absent from the list or first occurs at `index`; blank text
      deletes the entry; an index past the end changes nothing. */
  function FinishEdit(tags: seq<string>, index: nat, text: string): (e: Edit)
    ensures index >= |tags| ==> e == Edit(tags, false)
    ensures !e.saved ==> e.tags == tags
    ensures index < |tags| && Strip(text) != [] ==>
              (e.saved <==> Strip(text) !in tags || IndexOf(tags, Strip(text)) == index)
    ensures e.saved && Strip(text) != [] ==>
              |e.tags| == |tags| && e.tags[index] == Strip(text) && Strip(text) !in tags[..index] &&
              forall j :: 0 <= j < |tags| && j != index ==> e.tags[j] == tags[j]
    ensures Strip(text) == [] && index < |tags| ==> e == DeleteTag(tags, index)
    ensures Distinct(tags) ==> Distinct(e.tags)
    ensures CleanTags(tags) ==> CleanTags(e.tags)
  {
    var newText := Strip(text);
    if index >= |tags| then Edit(tags, false)
    else if newText != [] then
      if newText !in tags || IndexOf(tags, newText) == index then
        StripIsStripped(text);
        ReplaceKeeps(tags, index, newText);
        Edit(tags[index := newText], true)
      else Edit(tags, false)
    else DeleteTag(tags, index)
  }

  /** `finish_add` (NoitaModManager.py:885-896): appends the trimmed text when it is
      non-blank and not already in the list. */
  function FinishAdd(tags: seq<string>, text: string): (e: Edit)
    ensures e.saved <==> Strip(text) != [] && Strip(text) !in tags
    ensures e.tags == if e.saved then tags + [Strip(text)] else tags
    ensures Distinct(tags) ==> Distinct(e.tags)
    ensures CleanTags(tags) ==> CleanTags(e.tags)
  {
    var newText := Strip(text);
    var saved := newText != [] && newText !in tags;
    assert saved ==> Stripped(newText) by { StripIsStripped(text); }
    if saved then AppendKeeps(tags, newText); Edit(tags + [newText], true)
    else Edit(tags, false)
  }

  /** Each element once, at its first occurrence. */
  function Unique(s: seq<string>): (u: seq<string>)
    ensures Distinct(u)
    ensures forall t :: t in u <==> t in s
  {
    if s == [] then []
    else
      var init := s[..|s| - 1];
      assert s == init + [s[|s| - 1]];
      var u := Unique(init);
      if s[|s| - 1] in u then u else u + [s[|s| - 1]]
  }

  /** The workshop-tag merge after a fetch (NoitaModManager.py:947-949): the union of the
      cleaned stored tags and the cleaned fetched tags, each once. */
  function MergedTags(stored: seq<string>, fetched: seq<string>): (merged: seq<string>)
    ensures Distinct(merged) && CleanTags(merged)
    ensures forall t :: t in merged <==> t in Clean(stored) || t in Clean(fetched)
  {
    var all := Clean(stored) + Clean(fetched);
    CleanTagsConcat(Clean(stored), Clean(fetched));
    var merged := Unique(all);
    assert CleanTags(merged) by {
      forall i | 0 <= i < |merged| ensures merged[i] != [] && Stripped(merged[i]) {
        assert merged[i] in all;
      }
    }
    merged
  }

  /** Every cleaned tag of every record, user tags before workshop tags, in record order
      (NoitaModManager.py:554-557). */
  function AllTags(mods: seq<Record>): (ts: seq<string>)
    ensures CleanTags(ts)
  {
    if mods == [] then []
    else
      var r := mods[|mods| - 1];
      AllTags(mods[..|mods| - 1]) + Clean(TagList(r, UserTagsKey)) + Clean(TagList(r, WorkshopTagsKey))
  }

  /** `t` is one of the record's cleaned user or workshop tags. */
  predicate CarriesClean(r: Record, t: string) {
    t in Clean(TagList(r, UserTagsKey)) || t in Clean(TagList(r, WorkshopTagsKey))
  }

  /** `t` is the trimmed form of one of the record's user or workshop tags. */
  predicate CarriesTrimmed(r: Record, t: string) {
    t in Trimmed(TagList(r, UserTagsKey)) || t in Trimmed(TagList(r, WorkshopTagsKey))
  }

  lemma CarriesCleanIff(r: Record, t: string)
    ensures CarriesClean(r, t) <==> t != [] && CarriesTrimmed(r, t)
  {
    CleanMembers(TagList(r, UserTagsKey), t);
    CleanMembers(TagList(r, WorkshopTagsKey), t);
  }

  lemma AllTagsStep(mods: seq<Record>, t: string)
    requires mods != []
    ensures t in AllTags(mods) <==> t in AllTags(mods[..|mods| - 1]) || CarriesClean(mods[|mods| - 1], t)
  {
  }

  /** Every collected tag comes from some record. */
  lemma {:induction false} AllTagsSource(mods: seq<Record>, t: string) returns (i: nat)
    requires t in AllTags(mods)
    ensures i < |mods| && CarriesClean(mods[i], t)
  {
    var n := |mods| - 1;
    AllTagsStep(mods, t);
    if t in AllTags(mods[..n]) {
      i := AllTagsSource(mods[..n], t);
    } else {
      i := n;
    }
  }

  lemma AllTagsGrow(mods: seq<Record>, n: nat, t: string)
    requires n + 1 == |mods|
    requires t in AllTags(mods[..n]) || CarriesClean(mods[n], t)
    ensures t in AllTags(mods)
  {
  }

  /** Every cleaned tag of every record is collected. */
  lemma {:induction false} AllTagsComplete(mods: seq<Record>, i: nat, t: string)
    requires i < |mods| && CarriesClean(mods[i], t)
    ensures t in AllTags(mods)
  {
    var n := |mods| - 1;
    if i < n {
      AllTagsComplete(mods[..n], i, t);
      AllTagsGrow(mods, n, t);
    } else {
      assert i == n;
      AllTagsGrow(mods, n, t);
    }
  }

  /** The collected tags are exactly the non-blank trimmed user and workshop tags of the
      records. */
  lemma AllTagsMembers(mods: seq<Record>, t: string)
    ensures t in AllTags(mods) <==> t != [] && exists i :: 0 <= i < |mods| && CarriesTrimmed(mods[i], t)
  {
    if t in AllTags(mods) {
      var i := AllTagsSource(mods, t);
      CarriesCleanIff(mods[i], t);
    }
    if t != [] && exists i :: 0 <= i < |mods| && CarriesTrimmed(mods[i], t) {
      var i :| 0 <= i < |mods| && CarriesTrimmed(mods[i], t);
      CarriesCleanIff(mods[i], t);
      AllTagsComplete(mods, i, t);
    }
  }

  /** Inserts `x` into a strictly ascending list, unless it is already there. */
  function InsertSorted(x: string, s: seq<string>): (r: seq<string>)
    requires StrictlySorted(s)
    ensures StrictlySorted(r)
    ensures forall t :: t in r <==> t == x || t in s
  {
    if s == [] then [x]
    else if x == s[0] then s
    else if Below(x, s[0]) then
      assert forall j :: 0 < j < |s| ==> Below(x, s[j]) by {
        forall j | 0 < j < |s| ensures Below(x, s[j]) { BelowTransitive(x, s[0], s[j]); }
      }
      [x] + s
    else
      BelowTotal(x, s[0]);
      var rest := InsertSorted(x, s[1..]);
      assert forall t :: t in rest ==> Below(s[0], t) by {
        forall t | t in rest ensures Below(s[0], t) {
          if t != x { var j :| 0 <= j < |s[1..]| && s[1..][j] == t; assert s[j + 1] == t; }
        }
      }
      [s[0]] + rest
  }

  /** `sorted(set(ts))`. */
  function SortedDistinct(ts: seq<string>): (r: seq<string>)
    ensures StrictlySorted(r)
    ensures forall t :: t in r <==> t in ts
  {
    if ts == [] then [] else InsertSorted(ts[0], SortedDistinct(ts[1..]))
  }

  /** The tag cloud (NoitaModManager.py:553-559): every non-blank trimmed tag of every
      record, once each, in ascending order. It is collected from all records, not only
      the filtered ones. */
  function TagCloud(mods: seq<Record>): (cloud: seq<string>)
    ensures StrictlySorted(cloud) && CleanTags(cloud)
    ensures forall t :: t in cloud <==> t in AllTags(mods)
  {
    var all := AllTags(mods);
    var r := SortedDistinct(all);
    assert CleanTags(r) by {
      forall i | 0 <= i < |r| ensures r[i] != [] && Stripped(r[i]) {
        assert r[i] in all;
      }
    }
    r
  }

  /** The cloud shows exactly the non-blank trimmed user and workshop tags of the
      records. */
  lemma TagCloudMembers(mods: seq<Record>, t: string)
    ensures t in TagCloud(mods) <==> t != [] && exists i :: 0 <= i < |mods| && CarriesTrimmed(mods[i], t)
  {
    AllTagsMembers(mods, t);
  }

  /** A strictly ascending list is determined by its elements: the cloud is exactly
      `sorted(set(...))`, whatever order the tags were collected in. */
  lemma {:induction false} SortedUnique(a: seq<string>, b: seq<string>)
    requires StrictlySorted(a) && StrictlySorted(b)
    requires forall t :: t in a <==> t in b
    ensures a == b
  {
    if a != [] { assert a[0] in b; }
    if b != [] { assert b[0] in a; }
    if a != [] && b != [] {
      if a[0] != b[0] {
        assert a[0] in b && b[0] in a;
        var k :| 0 <= k < |b| && b[k] == a[0];
        var m :| 0 <= m < |a| && a[m] == b[0];
        assert k > 0 && m > 0;
        BelowAsymmetric(b[0], a[0]);
      }
      forall t | t in a[1..] ensures t in b[1..] {
        var j :| 0 <= j < |a[1..]| && a[1..][j] == t;
        assert Below(a[0], a[j + 1]);
        BelowIrreflexive(t);
        assert t in b;
        var k :| 0 <= k < |b| && b[k] == t;
        assert k != 0;
        assert b[1..][k - 1] == t;
      }
      forall t | t in b[1..] ensures t in a[1..] {
        var j :| 0 <= j < |b[1..]| && b[1..][j] == t;
        assert Below(b[0], b[j + 1]);
        BelowIrreflexive(t);
        assert t in a;
        var k :| 0 <= k < |a| && a[k] == t;
        assert k != 0;
        assert a[1..][k - 1] == t;
      }
      SortedUnique(a[1..], b[1..]);
      assert a == [a[0]] + a[1..] && b == [b[0]] + b[1..];
    }
  }
}
