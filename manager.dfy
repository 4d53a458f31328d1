/** The main window's state, `NoitaLoader` (NoitaModManager.py:198-1190), reduced to the
    record handling: the mod list `mods_data`, the filtered view `filtered_data`, the
    global tag store `TAGS_DATA`, and the config last written by `save_config`. The view
    holds rows of the mod list, so an edit through the view changes the record in the
    list, as the shared dicts do in the source. */
module Manager {
  import opened Text
  import opened Records
  import opened Workshop
  import opened Tags
  import opened ConfigExport
  import opened Reconciler
  import opened Query
  import opened Find
  import opened Mutations

  /** `TAGS_DATA[name][key] = tags`, creating the entry for `name` when it is missing. */
  function StoreWrite(store: TagStore, name: string, key: string, tags: seq<string>): (s: TagStore)
    ensures s.Keys == store.Keys + {name}
    ensures key in s[name] && s[name][key] == tags
    ensures name in store ==> forall k :: k in store[name] && k != key ==> k in s[name] && s[name][k] == store[name][k]
    ensures forall n :: n in store && n != name ==> s[n] == store[n]
  {
    store[name := (if name in store then store[name] else map[])[key := tags]]
  }

  /** `mod.get('workshop_item_id', '0')`. */
  function SubscriptionId(r: Record): string {
    if WorkshopIdKey in r && r[WorkshopIdKey].Str? then r[WorkshopIdKey].s else "0"
  }

  /** A record the tag fetch updates: it has a subscription id and the fetch for that id
      brought back at least one tag. `fetched` maps an id to the tags read from its
      workshop page; an id whose fetch failed is absent. */
  predicate Fetches(r: Record, fetched: map<string, seq<string>>) {
    SubscriptionId(r) != "0" && SubscriptionId(r) in fetched && fetched[SubscriptionId(r)] != []
  }

  /** The state the fetch loop carries: the records, the tag store and the update count. */
  datatype FetchState = FetchState(mods: seq<Record>, store: TagStore, count: nat)

  /** The fetch loop's body for record `i`: when the record fetched tags, its workshop
      tags and the store entry for its name both become the union of the stored and the
      fetched tags (NoitaModManager.py:941-951). */
  function FetchStep(f: FetchState, fetched: map<string, seq<string>>, i: nat): (g: FetchState)
    requires i < |f.mods| && Named(f.mods[i])
    ensures |g.mods| == |f.mods|
    ensures forall j :: 0 <= j < |f.mods| && j != i ==> g.mods[j] == f.mods[j]
    ensures WellFormed(f.mods[i]) ==> WellFormed(g.mods[i])
    ensures !Fetches(f.mods[i], fetched) ==> g == f
    ensures Fetches(f.mods[i], fetched) ==> g.count == f.count + 1
    ensures forall name, t :: HasTag(f.store, name, t) ==> HasTag(g.store, name, t)
  {
    var r := f.mods[i];
    if Fetches(r, fetched) then
      var merged := Merged(f.store, r, fetched);
      var s := StoreWrite(f.store, NameOf(r), WorkshopTagsKey, merged);
      assert forall name, t :: HasTag(f.store, name, t) ==> HasTag(s, name, t) by {
        forall name, t | HasTag(f.store, name, t) ensures HasTag(s, name, t) {
          MergeKeepsStored(f.store, r, fetched, name, t);
        }
      }
      FetchState(f.mods[i := SetTags(r, WorkshopTagsKey, merged)], s, f.count + 1)
    else f
  }

  /** Records carrying a name and both tag lists carry a name. */
  lemma WellFormedNamed(mods: seq<Record>)
    requires forall j :: 0 <= j < |mods| ==> WellFormed(mods[j])
    ensures AllNamed(mods)
  {
  }

  /** Writing a merge back into the store keeps every tag the store held. */
  lemma MergeKeepsStored(store: TagStore, r: Record, fetched: map<string, seq<string>>, name: string, t: string)
    requires Named(r) && Fetches(r, fetched) && HasTag(store, name, t)
    ensures HasTag(StoreWrite(store, NameOf(r), WorkshopTagsKey, Merged(store, r, fetched)), name, t)
  {
    var merged := Merged(store, r, fetched);
    if NameOf(r) == name {
      assert t in merged;
      WriteKeepsOwn(store, name, merged, t);
    } else {
      WriteKeepsOthers(store, NameOf(r), merged, name, t);
    }
  }

  /** A clean tag list written under a name is read back whole. */
  lemma WriteKeepsOwn(store: TagStore, name: string, tags: seq<string>, t: string)
    requires CleanTags(tags) && t in tags
    ensures HasTag(StoreWrite(store, name, WorkshopTagsKey, tags), name, t)
  {
    assert StoreTags(StoreWrite(store, name, WorkshopTagsKey, tags), name, WorkshopTagsKey) == tags;
    CleanKeepsClean(tags);
  }

  /** Writing under one name leaves the tags of every other name alone. */
  lemma WriteKeepsOthers(store: TagStore, written: string, tags: seq<string>, name: string, t: string)
    requires written != name && HasTag(store, name, t)
    ensures HasTag(StoreWrite(store, written, WorkshopTagsKey, tags), name, t)
  {
    assert StoreTags(StoreWrite(store, written, WorkshopTagsKey, tags), name, WorkshopTagsKey) == StoreTags(store, name, WorkshopTagsKey);
  }

  /** The tags stored for the record's name joined with the tags fetched for it. */
  function Merged(store: TagStore, r: Record, fetched: map<string, seq<string>>): seq<string>
    requires Named(r) && Fetches(r, fetched)
  {
    MergedTags(StoreTags(store, NameOf(r), WorkshopTagsKey), fetched[SubscriptionId(r)])
  }

  /** The fetch loop after its first `n` records (NoitaModManager.py:923-953). */
  function Fetching(mods: seq<Record>, store: TagStore, fetched: map<string, seq<string>>, n: nat): (f: FetchState)
    requires n <= |mods| && AllNamed(mods)
    ensures |f.mods| == |mods|
    ensures forall j :: n <= j < |mods| ==> f.mods[j] == mods[j]
    ensures forall name, t :: HasTag(store, name, t) ==> HasTag(f.store, name, t)
  {
    if n == 0 then FetchState(mods, store, 0)
    else FetchStep(Fetching(mods, store, fetched, n - 1), fetched, n - 1)
  }

  /** One step's effect on the record it visits. */
  lemma FetchStepRecord(f: FetchState, fetched: map<string, seq<string>>, i: nat)
    requires i < |f.mods| && Named(f.mods[i])
    ensures var r := f.mods[i];
            var m := FetchStep(f, fetched, i).mods[i];
            var ws := TagList(m, WorkshopTagsKey);
            Fetches(r, fetched) ==>
              Distinct(ws) && CleanTags(ws) &&
              (forall t :: t in Clean(fetched[SubscriptionId(r)]) ==> t in ws) &&
              (forall t :: t in Clean(StoreTags(f.store, NameOf(r), WorkshopTagsKey)) ==> t in ws) &&
              forall k :: k in r && k != WorkshopTagsKey ==> k in m && m[k] == r[k]
  {
  }

  /** After the fetch a record that fetched tags holds, as its workshop tags, each tag once
      and trimmed, every tag fetched for it and every workshop tag stored for its name
      before; any other record is untouched. */
  lemma {:induction false} FetchedRecord(mods: seq<Record>, store: TagStore, fetched: map<string, seq<string>>, n: nat, i: nat)
    requires n <= |mods| && AllNamed(mods) && i < n
    ensures var m := Fetching(mods, store, fetched, n).mods;
            var ws := TagList(m[i], WorkshopTagsKey);
            (Fetches(mods[i], fetched) ==>
               Distinct(ws) && CleanTags(ws) &&
               (forall t :: t in Clean(fetched[SubscriptionId(mods[i])]) ==> t in ws) &&
               (forall t :: t in Clean(StoreTags(store, NameOf(mods[i]), WorkshopTagsKey)) ==> t in ws) &&
               forall k :: k in mods[i] && k != WorkshopTagsKey ==> k in m[i] && m[i][k] == mods[i][k]) &&
            (!Fetches(mods[i], fetched) ==> m[i] == mods[i])
  {
    var f := Fetching(mods, store, fetched, n - 1);
    assert Fetching(mods, store, fetched, n) == FetchStep(f, fetched, n - 1);
    if i < n - 1 {
      FetchedRecord(mods, store, fetched, n - 1, i);
    } else {
      assert f.mods[i] == mods[i];
      FetchStepRecord(f, fetched, i);
      if Fetches(mods[i], fetched) {
        var ws := TagList(FetchStep(f, fetched, i).mods[i], WorkshopTagsKey);
        forall t | t in Clean(StoreTags(store, NameOf(mods[i]), WorkshopTagsKey)) ensures t in ws {
          assert HasTag(store, NameOf(mods[i]), t);
        }
      }
    }
  }

  /** `t` is one of the workshop tags the store holds for `name`, once cleaned. */
  predicate HasTag(store: TagStore, name: string, t: string) {
    t in Clean(StoreTags(store, name, WorkshopTagsKey))
  }

  /** The fetch keeps every record well formed. */
  lemma {:induction false} FetchingWellFormed(mods: seq<Record>, store: TagStore, fetched: map<string, seq<string>>, n: nat)
    requires n <= |mods| && AllNamed(mods) && forall j :: 0 <= j < |mods| ==> WellFormed(mods[j])
    ensures forall j :: 0 <= j < |mods| ==> WellFormed(Fetching(mods, store, fetched, n).mods[j])
  {
    if n > 0 {
      FetchingWellFormed(mods, store, fetched, n - 1);
    }
  }

  /** How many of the first `n` records fetch tags. */
  function CountFetching(mods: seq<Record>, fetched: map<string, seq<string>>, n: nat): nat
    requires n <= |mods|
  {
    if n == 0 then 0 else CountFetching(mods, fetched, n - 1) + (if Fetches(mods[n - 1], fetched) then 1 else 0)
  }

  /** The update count is the number of records that fetched tags. */
  lemma {:induction false} FetchCount(mods: seq<Record>, store: TagStore, fetched: map<string, seq<string>>, n: nat)
    requires n <= |mods| && AllNamed(mods)
    ensures Fetching(mods, store, fetched, n).count == CountFetching(mods, fetched, n)
  {
    if n > 0 {
      FetchCount(mods, store, fetched, n - 1);
    }
  }

  /** Moving a record keeps every record well formed. */
  lemma MoveWellFormed(s: seq<Record>, from: nat, to: nat)
    requires from < |s| && to < |s|
    requires forall i :: 0 <= i < |s| ==> WellFormed(s[i])
    ensures forall i :: 0 <= i < |s| ==> WellFormed(Move(s, from, to)[i])
  {
    var r := Move(s, from, to);
    forall i | 0 <= i < |r|
      ensures WellFormed(r[i])
    {
      assert r[i] in multiset(s);
    }
  }

  class ModManager {
    /** `mods_data`. */
    var mods: seq<Record>
    /** `filtered_data`, as rows of `mods`. */
    var view: seq<nat>
    /** `TAGS_DATA`. */
    var store: TagStore
    /** The attribute sets of the last config written by `save_config`. */
    var saved: seq<map<string, Value>>

    predicate Valid()
      reads this
    {
      Rows(view, |mods|) && forall i :: 0 <= i < |mods| ==> WellFormed(mods[i])
    }

    /** Starts with the tag store read at start-up and no mods. */
    constructor(tags: TagStore)
      ensures Valid()
      ensures mods == [] && view == [] && store == tags && saved == []
    {
      mods := [];
      view := [];
      store := tags;
      saved := [];
    }

    /** `load_data`: rebuilds the list from the config, the workshop cache listing and
        the local `mods` listing, and shows every record. */
    method Reload(config: seq<Attrs>, cache: seq<CacheEntry>, local: Option<seq<LocalEntry>>)
      requires Valid()
      modifies this
      ensures Valid()
      ensures store == old(store) && saved == old(saved)
      ensures var r := Reconciled(config, WorkshopIndex(cache), local, old(store));
              if r.Some? then mods == r.value && view == AllRows(|mods|)
              else mods == old(mods) && view == old(view)
    {
      var wmap := BuildWorkshopMap(cache);
      var r := Reconcile(config, wmap, local, store);
      ReconciledShape(config, wmap, local, store);
      if r.Some? {
        mods := r.value;
        view := AllRows(|mods|);
      }
    }

    /** `save_config`: writes the whole list. */
    method SaveConfig()
      modifies this
      ensures saved == Export(mods)
      ensures mods == old(mods) && view == old(view) && store == old(store)
    {
      saved := Export(mods);
    }

    /** `load_preset` of an existing preset file whose records all have a `name`: the
        preset's records with their tags re-attached from the store, all shown, and the
        config saved. A missing file (None) changes nothing. */
    method LoadPreset(preset: Option<seq<Record>>)
      requires Valid()
      modifies this
      ensures Valid()
      ensures store == old(store)
      ensures preset.Some? && AllNamed(preset.value) ==>
                |mods| == |preset.value| &&
                (forall i :: 0 <= i < |mods| ==> mods[i] == WithTags(preset.value[i], store)) &&
                view == AllRows(|mods|) && saved == Export(mods)
      ensures !(preset.Some? && AllNamed(preset.value)) ==>
                mods == old(mods) && view == old(view) && saved == old(saved)
    {
      if preset.Some? && AllNamed(preset.value) {
        mods := AttachTags(preset.value, store);
        view := AllRows(|mods|);
        SaveConfig();
      }
    }

    /** `on_search`: shows the rows the query keeps. */
    method OnSearch(query: string)
      requires Valid()
      modifies this
      ensures Valid()
      ensures view == MatchingRows(mods, Terms(query), |mods|)
      ensures mods == old(mods) && store == old(store) && saved == old(saved)
    {
      WellFormedNamed(mods);
      var rows := Search(mods, query);
      RowsWhereAscending(Verdicts(mods, Terms(query)), |mods|);
      view := rows;
    }

    /** `_find` over the shown rows; `current` is the focused row. */
    method FindStep(query: string, current: Option<nat>, direction: int) returns (res: FindResult)
      requires Valid()
      ensures res == Find.Find(Visible(mods, view), query, current, direction)
    {
      var q := Lower(query);
      if q == [] {
        return ShowZero;
      }
      var shown := Visible(mods, view);
      if |shown| == 0 {
        return Unchanged;
      }
      var matches := FindMatches(shown, q);
      FindHitsSpec(shown, q, |shown|);
      if matches == [] {
        return ShowZero;
      }
      res := Navigate(matches, |shown|, current, direction);
    }

    /** The checkbox click on shown row `row`, then `save_config`. */
    method Toggle(row: nat)
      requires Valid() && row < |view|
      modifies this
      ensures Valid()
      ensures mods == old(mods)[old(view)[row] := Toggled(old(mods)[old(view)[row]])]
      ensures view == old(view) && store == old(store) && saved == Export(mods)
    {
      var i := view[row];
      mods := mods[i := Toggled(mods[i])];
      SaveConfig();
    }

    /** `set_all_enabled`: every shown record enabled (or disabled), then `save_config`. */
    method SetAllEnabled(state: bool)
      requires Valid()
      modifies this
      ensures Valid()
      ensures |mods| == |old(mods)|
      ensures forall i :: 0 <= i < |mods| ==>
                mods[i] == if i in view then old(mods)[i][EnabledKey := Str(if state then "1" else "0")] else old(mods)[i]
      ensures view == old(view) && store == old(store) && saved == Export(mods)
    {
      var val := if state then "1" else "0";
      mods := EnableRows(mods, view, val);
      SaveConfig();
    }

    /** The drop of a drag from row `src` onto row `dst` (`below` when on its lower
        half): the dragged record moves next to the target record, every record is
        shown, and the config is saved. A drag only starts while the search box is empty
        (NoitaModManager.py:129), and the view then shows every record, so the tree's row
        ids are positions in `mods_data`. */
    method Reorder(src: nat, dst: nat, below: bool)
      requires Valid() && view == AllRows(|mods|)
      requires src < |mods| && dst < |mods| && src != dst
      modifies this
      ensures Valid()
      ensures mods == Drop(old(mods), src, dst, below)
      ensures view == AllRows(|mods|) && store == old(store) && saved == Export(mods)
    {
      var from := src;
      var t := ReorderTarget(from, dst, below);
      var item := mods[from];
      var rest := mods[..from] + mods[from + 1..];
      var moved := rest[..t] + [item] + rest[t..];
      assert moved == Move(mods, from, t);
      MoveWellFormed(mods, from, t);
      mods := moved;
      view := AllRows(|mods|);
      SaveConfig();
    }

    /** Writes an editor's outcome on shown row `row`: when it saved, the record's list
        under `key` and the store entry for its name both become the new list. */
    method ApplyEdit(row: nat, key: string, e: Edit)
      requires Valid() && row < |view| && TagKey(key)
      modifies this
      ensures Valid()
      ensures var i := old(view)[row];
              var r := old(mods)[i];
              if e.saved then
                mods == old(mods)[i := SetTags(r, key, e.tags)] &&
                store == StoreWrite(old(store), NameOf(r), key, e.tags)
              else mods == old(mods) && store == old(store)
      ensures view == old(view) && saved == old(saved)
    {
      if e.saved {
        var i := view[row];
        var r := mods[i];
        mods := mods[i := SetTags(r, key, e.tags)];
        store := StoreWrite(store, NameOf(r), key, e.tags);
      }
    }

    /** The tag editor's delete button on entry `index`. */
    method DeleteTagAt(row: nat, key: string, index: int)
      requires Valid() && row < |view| && TagKey(key)
      modifies this
      ensures Valid()
      ensures var i := old(view)[row];
              var e := DeleteTag(TagList(old(mods)[i], key), index);
              if e.saved then
                mods == old(mods)[i := SetTags(old(mods)[i], key, e.tags)] &&
                store == StoreWrite(old(store), NameOf(old(mods)[i]), key, e.tags)
              else mods == old(mods) && store == old(store)
      ensures view == old(view) && saved == old(saved)
    {
      var e := DeleteTag(TagList(mods[view[row]], key), index);
      ApplyEdit(row, key, e);
    }

    /** The tag editor's in-place edit of entry `index` to `text`. */
    method FinishEditAt(row: nat, key: string, index: nat, text: string)
      requires Valid() && row < |view| && TagKey(key)
      modifies this
      ensures Valid()
      ensures var i := old(view)[row];
              var e := FinishEdit(TagList(old(mods)[i], key), index, text);
              if e.saved then
                mods == old(mods)[i := SetTags(old(mods)[i], key, e.tags)] &&
                store == StoreWrite(old(store), NameOf(old(mods)[i]), key, e.tags)
              else mods == old(mods) && store == old(store)
      ensures view == old(view) && saved == old(saved)
    {
      var e := FinishEdit(TagList(mods[view[row]], key), index, text);
      ApplyEdit(row, key, e);
    }

    /** The tag editor's `+` entry, confirmed with `text`. */
    method FinishAddAt(row: nat, key: string, text: string)
      requires Valid() && row < |view| && TagKey(key)
      modifies this
      ensures Valid()
      ensures var i := old(view)[row];
              var e := FinishAdd(TagList(old(mods)[i], key), text);
              if e.saved then
                mods == old(mods)[i := SetTags(old(mods)[i], key, e.tags)] &&
                store == StoreWrite(old(store), NameOf(old(mods)[i]), key, e.tags)
              else mods == old(mods) && store == old(store)
      ensures view == old(view) && saved == old(saved)
    {
      var e := FinishAdd(TagList(mods[view[row]], key), text);
      ApplyEdit(row, key, e);
    }

    /** The fetch loop's body for record `i`, `count` records updated so far. */
    method FetchRecord(fetched: map<string, seq<string>>, i: nat, count: nat) returns (count': nat)
      requires i < |mods| && Named(mods[i])
      modifies this
      ensures FetchState(mods, store, count') == FetchStep(FetchState(old(mods), old(store), count), fetched, i)
      ensures view == old(view) && saved == old(saved)
    {
      count' := count;
      var r := mods[i];
      var wid := SubscriptionId(r);
      if wid != "0" && wid in fetched && fetched[wid] != [] {
        var name := NameOf(r);
        var merged := MergedTags(StoreTags(store, name, WorkshopTagsKey), fetched[wid]);
        store := StoreWrite(store, name, WorkshopTagsKey, merged);
        mods := mods[i := SetTags(r, WorkshopTagsKey, merged)];
        count' := count' + 1;
      }
    }

    /** `fetch_tags` with the page downloads given as `fetched`: merges the fetched tags
        into each subscribed record's workshop tags and the store, and returns the number
        of records updated. */
    method FetchTags(fetched: map<string, seq<string>>) returns (count: nat)
      requires Valid()
      modifies this
      ensures Valid()
      ensures FetchState(mods, store, count) == Fetching(old(mods), old(store), fetched, |old(mods)|)
      ensures view == old(view) && saved == old(saved)
    {
      ghost var mods0 := mods;
      ghost var store0 := store;
      WellFormedNamed(mods0);
      count := 0;
      for i := 0 to |mods|
        invariant FetchState(mods, store, count) == Fetching(mods0, store0, fetched, i)
        invariant view == old(view) && saved == old(saved)
      {
        count := FetchRecord(fetched, i, count);
      }
      FetchingWellFormed(mods0, store0, fetched, |mods0|);
    }
  }
}
