/** The reconciler, `load_data` (NoitaModManager.py:604-669): the records of the game's
    config, in file order, followed by one new record per local mod directory the config
    does not name; each config record owning a directory gets that directory's display
    name and link flag, and a missing subscription id from the workshop index; finally
    both tag lists are attached from the tag store. The config's attributes, the local
    directory listing (None when the `mods` directory does not exist) and the workshop
    index are inputs. */
module Reconciler {
  import opened Text
  import opened Records
  import opened Workshop
  import opened Tags
  import opened ConfigExport

  /** One entry of the local `mods` directory listing. `manifestName` is the `name`
      attribute of its `mod.xml`, or None when that file is missing, unreadable or has no
      such attribute. */
  datatype LocalEntry = LocalEntry(dirName: string, isDir: bool, isLink: bool, manifestName: Option<string>)

  /** The name shown for a directory: its manifest's name, else the directory name. */
  function DisplayName(e: LocalEntry): string {
    if e.manifestName.Some? then e.manifestName.value else e.dirName
  }

  /** The case-insensitive key a record is matched under. */
  function Key(r: Record): string
    requires Named(r)
  {
    Lower(NameOf(r))
  }

  /** A directory entry that the scan matches against `key`. */
  predicate Matches(e: LocalEntry, key: string) {
    e.isDir && Lower(e.dirName) == key
  }

  /** Index of the last entry matching `key`, or -1 when there is none. */
  function LastMatch(es: seq<LocalEntry>, key: string): (j: int)
    ensures -1 <= j < |es|
    ensures j >= 0 ==> Matches(es[j], key)
    ensures forall j' :: j < j' < |es| ==> !Matches(es[j'], key)
  {
    if es == [] then -1
    else if Matches(es[|es| - 1], key) then |es| - 1
    else LastMatch(es[..|es| - 1], key)
  }

  /** Index of the last record filed under `key`, or -1 when there is none. */
  function LastNamed(recs: seq<Record>, key: string): (j: int)
    requires AllNamed(recs)
    ensures -1 <= j < |recs|
    ensures j >= 0 ==> Key(recs[j]) == key
    ensures forall j' :: j < j' < |recs| ==> Key(recs[j']) != key
  {
    if recs == [] then -1
    else if Key(recs[|recs| - 1]) == key then |recs| - 1
    else LastNamed(recs[..|recs| - 1], key)
  }

  /** The record that owns its name: no later record has the same name up to case. */
  predicate IsOwner(recs: seq<Record>, i: nat)
    requires AllNamed(recs) && i < |recs|
  {
    LastNamed(recs, Key(recs[i])) == i
  }

  /** Values below `n`. */
  predicate OwnersIn(owners: map<string, nat>, n: nat) {
    forall k :: k in owners ==> owners[k] < n
  }

  /** `existing_map`: lower-cased name to record index, a later record overwriting an
      earlier one with the same name. */
  function Owners(recs: seq<Record>): (m: map<string, nat>)
    requires AllNamed(recs)
    ensures OwnersIn(m, |recs|)
  {
    if recs == [] then map[]
    else Owners(recs[..|recs| - 1])[Key(recs[|recs| - 1]) := |recs| - 1]
  }

  /** `existing_map` files each name under the last record carrying it. */
  lemma {:induction false} OwnersLookup(recs: seq<Record>, key: string)
    requires AllNamed(recs)
    ensures key in Owners(recs) <==> LastNamed(recs, key) >= 0
    ensures key in Owners(recs) ==> Owners(recs)[key] == LastNamed(recs, key)
  {
    if recs != [] {
      var init := recs[..|recs| - 1];
      OwnersLookup(init, key);
      if Key(recs[|recs| - 1]) != key {
        var j := LastNamed(init, key);
        if j >= 0 { assert init[j] == recs[j]; }
      }
    }
  }

  /** The update a matched config record receives: display name and link flag, and the
      subscription id when none is recorded yet and the workshop index knows one. */
  function Overlay(r: Record, e: LocalEntry, wid: string): (o: Record)
    ensures DisplayKey in o && LinkKey in o
    ensures o[DisplayKey] == Str(DisplayName(e)) && o[LinkKey] == Flag(e.isLink)
    ensures forall k :: k in r && k != DisplayKey && k != LinkKey && k != WorkshopIdKey ==> k in o && o[k] == r[k]
    ensures Named(r) ==> Named(o) && NameOf(o) == NameOf(r)
  {
    var d := r[DisplayKey := Str(DisplayName(e))][LinkKey := Flag(e.isLink)];
    if IdUnset(r) && wid != "0" then d[WorkshopIdKey := Str(wid)] else d
  }

  /** Two matching directories in a row leave the record as the later one alone would:
      the display name and link flag are overwritten, and an id adopted from the first
      makes the second find it set. */
  lemma OverlayTwice(r: Record, e1: LocalEntry, e2: LocalEntry, wid: string)
    ensures Overlay(Overlay(r, e1, wid), e2, wid) == Overlay(r, e2, wid)
  {
    var o1 := Overlay(r, e1, wid);
    if IdUnset(r) && wid != "0" {
      assert o1[WorkshopIdKey] == Str(wid);
    } else {
      assert IdUnset(o1) <==> IdUnset(r);
    }
  }

  /** The record appended for a directory the config does not name. */
  function NewRecord(e: LocalEntry, wid: string): (r: Record)
    ensures Named(r) && NameOf(r) == e.dirName
    ensures EnabledKey in r && r[EnabledKey] == Str("0")
  {
    map[NameKey := Str(e.dirName), EnabledKey := Str("0"), WorkshopIdKey := Str(wid),
        DisplayKey := Str(DisplayName(e)), LinkKey := Flag(e.isLink)]
  }

  /** The id the workshop index gives a directory name, `'0'` when it has none. */
  function WidOf(wmap: map<string, string>, e: LocalEntry): string {
    IdFor(wmap, Lower(e.dirName))
  }

  /** One iteration of the directory scan. */
  function ScanStep(mods: seq<Record>, owners: map<string, nat>, e: LocalEntry, wmap: map<string, string>): (r: seq<Record>)
    requires OwnersIn(owners, |mods|)
  {
    if !e.isDir then mods
    else
      var dl := Lower(e.dirName);
      if dl in owners then mods[owners[dl] := Overlay(mods[owners[dl]], e, WidOf(wmap, e))]
      else mods + [NewRecord(e, WidOf(wmap, e))]
  }

  /** The directory scan over the listing, in listing order. */
  function Scan(mods: seq<Record>, owners: map<string, nat>, es: seq<LocalEntry>, wmap: map<string, string>): (r: seq<Record>)
    requires OwnersIn(owners, |mods|)
    ensures |r| >= |mods|
    ensures AllNamed(mods) ==> AllNamed(r)
    decreases |es|
  {
    if es == [] then mods
    else
      var prev := Scan(mods, owners, es[..|es| - 1], wmap);
      var r := ScanStep(prev, owners, es[|es| - 1], wmap);
      assert AllNamed(prev) ==> AllNamed(r) by {
        if AllNamed(prev) {
          forall i | 0 <= i < |r| ensures Named(r[i]) {
            if i < |prev| { assert Named(prev[i]); }
          }
        }
      }
      r
  }

  /** The directories the scan appends, in listing order: those whose name, up to case,
      no config record carries. */
  function NewEntries(owners: map<string, nat>, es: seq<LocalEntry>): (ns: seq<LocalEntry>)
    ensures forall k :: 0 <= k < |ns| ==> ns[k] in es && ns[k].isDir && Lower(ns[k].dirName) !in owners
  {
    if es == [] then []
    else
      var e := es[|es| - 1];
      var init := NewEntries(owners, es[..|es| - 1]);
      assert forall x :: x in init ==> x in es by {
        forall x | x in init ensures x in es { assert x in es[..|es| - 1]; }
      }
      init + (if e.isDir && Lower(e.dirName) !in owners then [e] else [])
  }

  /** Every unmatched directory is appended. */
  lemma {:induction false} NewEntriesComplete(owners: map<string, nat>, es: seq<LocalEntry>, e: LocalEntry)
    requires e in es && e.isDir && Lower(e.dirName) !in owners
    ensures e in NewEntries(owners, es)
  {
    var init := es[..|es| - 1];
    if e != es[|es| - 1] {
      var k :| 0 <= k < |es| && es[k] == e;
      assert init[k] == e;
      NewEntriesComplete(owners, init, e);
    }
  }

  /** The records made for appended directories. */
  function NewRecords(ns: seq<LocalEntry>, wmap: map<string, string>): (rs: seq<Record>)
    ensures |rs| == |ns|
    ensures forall k :: 0 <= k < |ns| ==> rs[k] == NewRecord(ns[k], WidOf(wmap, ns[k]))
  {
    seq(|ns|, k requires 0 <= k < |ns| => NewRecord(ns[k], WidOf(wmap, ns[k])))
  }

  /** The scan leaves the first `|mods|` records in place and appends exactly one new
      record per unmatched directory, in listing order. */
  lemma {:induction false} ScanAppends(mods: seq<Record>, owners: map<string, nat>, es: seq<LocalEntry>, wmap: map<string, string>)
    requires OwnersIn(owners, |mods|)
    ensures Scan(mods, owners, es, wmap)[|mods|..] == NewRecords(NewEntries(owners, es), wmap)
  {
    if es != [] {
      var init := es[..|es| - 1];
      var e := es[|es| - 1];
      var prev := Scan(mods, owners, init, wmap);
      ScanAppends(mods, owners, init, wmap);
      var ns := NewEntries(owners, init);
      if e.isDir && Lower(e.dirName) !in owners {
        assert NewEntries(owners, es) == ns + [e];
        assert Scan(mods, owners, es, wmap) == prev + [NewRecord(e, WidOf(wmap, e))];
        NewRecordsSnoc(ns, e, wmap);
        TailSnoc(prev, |mods|, NewRecord(e, WidOf(wmap, e)));
      } else {
        assert NewEntries(owners, es) == ns;
        if e.isDir {
          var j := owners[Lower(e.dirName)];
          assert Scan(mods, owners, es, wmap)[|mods|..] == prev[|mods|..];
        }
      }
    }
  }

  /** One more appended directory, one more new record. */
  lemma NewRecordsSnoc(ns: seq<LocalEntry>, e: LocalEntry, wmap: map<string, string>)
    ensures NewRecords(ns + [e], wmap) == NewRecords(ns, wmap) + [NewRecord(e, WidOf(wmap, e))]
  {
    assert (ns + [e])[|ns|] == e;
  }

  /** Appending to a list appends to each of its tails. */
  lemma TailSnoc(s: seq<Record>, n: nat, x: Record)
    requires n <= |s|
    ensures (s + [x])[n..] == s[n..] + [x]
  {
  }

  /** A record no directory name is filed under is left alone by the scan. */
  lemma {:induction false} ScanUnowned(mods: seq<Record>, owners: map<string, nat>, es: seq<LocalEntry>, wmap: map<string, string>, i: nat)
    requires OwnersIn(owners, |mods|) && i < |mods|
    requires forall k :: k in owners ==> owners[k] != i
    ensures Scan(mods, owners, es, wmap)[i] == mods[i]
  {
    if es != [] {
      ScanUnowned(mods, owners, es[..|es| - 1], wmap, i);
    }
  }

  /** The record filed under `key` ends up overlaid by the last directory matching `key`,
      or unchanged when no directory matches. */
  lemma {:induction false} ScanOwned(mods: seq<Record>, owners: map<string, nat>, es: seq<LocalEntry>, wmap: map<string, string>, i: nat, key: string)
    requires OwnersIn(owners, |mods|) && i < |mods|
    requires key in owners && owners[key] == i
    requires forall k :: k in owners && owners[k] == i ==> k == key
    ensures var j := LastMatch(es, key);
            Scan(mods, owners, es, wmap)[i] ==
              if j >= 0 then Overlay(mods[i], es[j], IdFor(wmap, key)) else mods[i]
  {
    if es != [] {
      var init := es[..|es| - 1];
      var e := es[|es| - 1];
      ScanOwned(mods, owners, init, wmap, i, key);
      var prev := Scan(mods, owners, init, wmap);
      if Matches(e, key) {
        var j := LastMatch(init, key);
        if j >= 0 {
          assert init[j] == es[j];
          OverlayTwice(mods[i], es[j], e, IdFor(wmap, key));
        }
      } else {
        var j := LastMatch(init, key);
        if j >= 0 { assert init[j] == es[j]; }
        if e.isDir && Lower(e.dirName) in owners {
          assert owners[Lower(e.dirName)] != i;
        }
      }
    }
  }

  /** `mod.attrib` for every `<Mod>` element, in file order. */
  function Parsed(config: seq<Attrs>): (recs: seq<Record>)
    ensures |recs| == |config|
    ensures forall i :: 0 <= i < |config| ==> recs[i] == FromAttrs(config[i])
    ensures AllNamed(recs) <==> forall i :: 0 <= i < |config| ==> NameKey in config[i]
  {
    seq(|config|, i requires 0 <= i < |config| => FromAttrs(config[i]))
  }

  /** Both tag lists attached to every record. */
  function Tagged(mods: seq<Record>, store: TagStore): (t: seq<Record>)
    requires AllNamed(mods)
    ensures |t| == |mods|
    ensures forall i :: 0 <= i < |mods| ==> t[i] == WithTags(mods[i], store)
  {
    seq(|mods|, i requires 0 <= i < |mods| => WithTags(mods[i], store))
  }

  /** What `load_data` leaves in `mods_data`: None when a config record has no `name`
      (the source raises `KeyError`), otherwise the scanned records with tags attached. */
  function Reconciled(config: seq<Attrs>, wmap: map<string, string>, local: Option<seq<LocalEntry>>, store: TagStore): (r: Option<seq<Record>>)
    ensures r.Some? ==> |r.value| >= |config|
  {
    var recs := Parsed(config);
    if !AllNamed(recs) then None
    else
      var scanned := if local.Some? then Scan(recs, Owners(recs), local.value, wmap) else recs;
      Some(Tagged(scanned, store))
  }

  /** Loading fails exactly when some config record has no `name`; otherwise every
      record it yields carries a name and both tag lists. */
  lemma ReconciledShape(config: seq<Attrs>, wmap: map<string, string>, local: Option<seq<LocalEntry>>, store: TagStore)
    ensures var r := Reconciled(config, wmap, local, store);
            (r.None? <==> exists i :: 0 <= i < |config| && NameKey !in config[i]) &&
            (r.Some? ==> forall i :: 0 <= i < |r.value| ==> WellFormed(r.value[i]))
  {
  }

  /** `existing_map = {m['name'].lower(): m for m in self.mods_data}`; None where a
      record has no name. */
  method BuildOwners(recs: seq<Record>) returns (existing: Option<map<string, nat>>)
    ensures existing.None? <==> !AllNamed(recs)
    ensures existing.Some? ==> existing.value == Owners(recs)
  {
    var m: map<string, nat> := map[];
    for i := 0 to |recs|
      invariant AllNamed(recs[..i])
      invariant m == Owners(recs[..i])
    {
      if !Named(recs[i]) {
        return None;
      }
      assert recs[..i + 1][..i] == recs[..i];
      m := m[Key(recs[i]) := i];
    }
    assert recs[..|recs|] == recs;
    existing := Some(m);
  }

  /** The directory loop of `load_data`. */
  method ScanListing(recs: seq<Record>, existing: map<string, nat>, es: seq<LocalEntry>, wmap: map<string, string>)
    returns (mods: seq<Record>)
    requires OwnersIn(existing, |recs|)
    ensures mods == Scan(recs, existing, es, wmap)
  {
    mods := recs;
    for k := 0 to |es|
      invariant OwnersIn(existing, |mods|)
      invariant mods == Scan(recs, existing, es[..k], wmap)
    {
      assert es[..k + 1][..k] == es[..k];
      var e := es[k];
      if e.isDir {
        var dl := Lower(e.dirName);
        var wid := IdFor(wmap, dl);
        if dl in existing {
          var j := existing[dl];
          mods := mods[j := Overlay(mods[j], e, wid)];
        } else {
          mods := mods + [NewRecord(e, wid)];
        }
      }
    }
    assert es[..|es|] == es;
  }

  /** The tag-merge loop of `load_data`; None where a record has no name. */
  method TagAll(scanned: seq<Record>, store: TagStore) returns (r: Option<seq<Record>>)
    ensures r.None? <==> !AllNamed(scanned)
    ensures r.Some? ==> r.value == Tagged(scanned, store)
  {
    var mods := scanned;
    for i := 0 to |mods|
      invariant |mods| == |scanned|
      invariant forall j :: 0 <= j < i ==> Named(scanned[j]) && mods[j] == WithTags(scanned[j], store)
      invariant forall j :: i <= j < |mods| ==> mods[j] == scanned[j]
    {
      if !Named(mods[i]) {
        return None;
      }
      mods := mods[i := WithTags(mods[i], store)];
    }
    r := Some(mods);
  }

  /** `load_data` without its I/O: the config's attributes, the workshop index and the
      local listing in, the new `mods_data` out. */
  method Reconcile(config: seq<Attrs>, wmap: map<string, string>, local: Option<seq<LocalEntry>>, store: TagStore)
    returns (r: Option<seq<Record>>)
    ensures r == Reconciled(config, wmap, local, store)
  {
    var recs := Parsed(config);
    var scanned := recs;
    if local.Some? {
      var existing := BuildOwners(recs);
      if existing.None? {
        return None;
      }
      scanned := ScanListing(recs, existing.value, local.value, wmap);
    }
    r := TagAll(scanned, store);
    if !AllNamed(recs) {
      assert r.None?;
    }
  }

  /** Where `Owners` files record `i`: under its own name exactly when it is the last
      record with that name, and nowhere otherwise. */
  lemma OwnerSlot(recs: seq<Record>, i: nat)
    requires AllNamed(recs) && i < |recs|
    ensures IsOwner(recs, i) ==> Key(recs[i]) in Owners(recs) && Owners(recs)[Key(recs[i])] == i
    ensures forall k :: k in Owners(recs) && Owners(recs)[k] == i ==> IsOwner(recs, i) && k == Key(recs[i])
  {
    OwnersLookup(recs, Key(recs[i]));
    forall k | k in Owners(recs) && Owners(recs)[k] == i
      ensures IsOwner(recs, i) && k == Key(recs[i])
    {
      OwnersLookup(recs, k);
    }
  }

  /** A config record's fate: if it is the last record with its name (up to case) and a
      directory of that name exists, it is overlaid by the last such directory, with the
      id the workshop index gives that name; otherwise it is kept as parsed. Tags are
      attached either way. */
  lemma ReconciledConfigRecord(config: seq<Attrs>, wmap: map<string, string>, local: Option<seq<LocalEntry>>, store: TagStore, i: nat)
    requires forall j :: 0 <= j < |config| ==> NameKey in config[j]
    requires i < |config|
    ensures AllNamed(Parsed(config)) && Reconciled(config, wmap, local, store).Some?
    ensures i < |Reconciled(config, wmap, local, store).value|
    ensures var recs := Parsed(config);
            var j := if local.Some? && IsOwner(recs, i) then LastMatch(local.value, Key(recs[i])) else -1;
            Reconciled(config, wmap, local, store).value[i] ==
              WithTags(if j >= 0 then Overlay(recs[i], local.value[j], IdFor(wmap, Key(recs[i]))) else recs[i], store)
  {
    var recs := Parsed(config);
    ParsedNamed(config);
    if local.Some? {
      var owners := Owners(recs);
      OwnerSlot(recs, i);
      if IsOwner(recs, i) {
        ScanOwned(recs, owners, local.value, wmap, i, Key(recs[i]));
      } else {
        ScanUnowned(recs, owners, local.value, wmap, i);
      }
    }
  }

  /** The keys the manager itself sets on a config record. */
  predicate ManagerKey(k: string) {
    k == DisplayKey || k == LinkKey || k == WorkshopIdKey || TagKey(k)
  }

  /** Every attribute of a config record other than those the manager sets survives
      loading unchanged; in particular `name` and `enabled`. */
  lemma ConfigAttributesKept(config: seq<Attrs>, wmap: map<string, string>, local: Option<seq<LocalEntry>>, store: TagStore, i: nat)
    requires forall j :: 0 <= j < |config| ==> NameKey in config[j]
    requires i < |config|
    ensures var out := Reconciled(config, wmap, local, store).value[i];
            forall k :: k in config[i] && !ManagerKey(k) ==> k in out && out[k] == Str(config[i][k])
  {
    ReconciledConfigRecord(config, wmap, local, store, i);
  }

  /** The subscription id policy: a recorded non-`'0'` id is kept; a missing or `'0'` id
      is replaced exactly when the record owns a directory and the workshop index has a
      non-`'0'` id for its name. */
  lemma WorkshopIdAdopted(config: seq<Attrs>, wmap: map<string, string>, local: Option<seq<LocalEntry>>, store: TagStore, i: nat)
    requires forall j :: 0 <= j < |config| ==> NameKey in config[j]
    requires i < |config|
    ensures var recs := Parsed(config);
            var out := Reconciled(config, wmap, local, store).value[i];
            var wid := IdFor(wmap, Key(recs[i]));
            var adopt := local.Some? && IsOwner(recs, i) && LastMatch(local.value, Key(recs[i])) >= 0 && wid != "0";
            (!IdUnset(recs[i]) ==> WorkshopIdKey in out && out[WorkshopIdKey] == recs[i][WorkshopIdKey]) &&
            (IdUnset(recs[i]) && adopt ==> WorkshopIdKey in out && out[WorkshopIdKey] == Str(wid)) &&
            (IdUnset(recs[i]) && !adopt ==> IdUnset(out))
  {
    var recs := Parsed(config);
    var j := if local.Some? && IsOwner(recs, i) then LastMatch(local.value, Key(recs[i])) else -1;
    ReconciledConfigRecord(config, wmap, local, store, i);
    if j >= 0 {
      IdPolicy(recs[i], local.value[j], IdFor(wmap, Key(recs[i])), true, store);
    } else {
      IdPolicy(recs[i], LocalEntry([], false, false, None), IdFor(wmap, Key(recs[i])), false, store);
    }
  }

  /** The subscription id a record leaves loading with: a recorded id is kept, an unset
      one is replaced by the workshop index's id when a directory matched and that id is
      not `'0'`, and stays unset otherwise. */
  lemma IdPolicy(r: Record, e: LocalEntry, wid: string, matched: bool, store: TagStore)
    requires Named(r)
    ensures var t := WithTags(if matched then Overlay(r, e, wid) else r, store);
            (!IdUnset(r) ==> WorkshopIdKey in t && t[WorkshopIdKey] == r[WorkshopIdKey]) &&
            (IdUnset(r) && matched && wid != "0" ==> WorkshopIdKey in t && t[WorkshopIdKey] == Str(wid)) &&
            (IdUnset(r) && !(matched && wid != "0") ==> IdUnset(t))
  {
    assert !TagKey(WorkshopIdKey);
  }

  /** A listed directory is among the directories appended exactly when it is a directory
      and no config record carries its name up to case. */
  lemma NewEntriesExactly(recs: seq<Record>, es: seq<LocalEntry>, e: LocalEntry)
    requires AllNamed(recs)
    ensures e in NewEntries(Owners(recs), es) <==>
              e in es && e.isDir && forall i :: 0 <= i < |recs| ==> Key(recs[i]) != Lower(e.dirName)
  {
    var key := Lower(e.dirName);
    OwnersLookup(recs, key);
    if e in es && e.isDir && key !in Owners(recs) {
      NewEntriesComplete(Owners(recs), es, e);
    }
    if key in Owners(recs) {
      var j := LastNamed(recs, key);
      assert Key(recs[j]) == key;
    }
  }

  /** After the config records come the unmatched directories, in listing order, each as a
      record named after its directory, disabled, with the id the workshop index gives it;
      without a `mods` directory nothing is appended. */
  lemma DirectoriesAppended(config: seq<Attrs>, wmap: map<string, string>, local: Option<seq<LocalEntry>>, store: TagStore)
    requires forall j :: 0 <= j < |config| ==> NameKey in config[j]
    ensures var out := Reconciled(config, wmap, local, store).value;
            var ns := if local.Some? then NewEntries(Owners(Parsed(config)), local.value) else [];
            |out| == |config| + |ns| &&
            forall i :: |config| <= i < |out| ==>
              var e := ns[i - |config|];
              out[i] == WithTags(NewRecord(e, WidOf(wmap, e)), store) &&
              Named(out[i]) && NameOf(out[i]) == e.dirName && out[i][EnabledKey] == Str("0")
  {
    if local.Some? {
      AppendedCount(config, wmap, local.value, store);
      forall i | |config| <= i < |config| + |NewEntries(Owners(Parsed(config)), local.value)|
        ensures var out := Reconciled(config, wmap, local, store).value;
                var e := NewEntries(Owners(Parsed(config)), local.value)[i - |config|];
                out[i] == WithTags(NewRecord(e, WidOf(wmap, e)), store) &&
                Named(out[i]) && NameOf(out[i]) == e.dirName && out[i][EnabledKey] == Str("0")
      {
        AppendedRecord(config, wmap, local.value, store, i);
      }
    }
  }

  /** The list is the config records followed by one record per unmatched directory. */
  lemma AppendedCount(config: seq<Attrs>, wmap: map<string, string>, es: seq<LocalEntry>, store: TagStore)
    requires forall j :: 0 <= j < |config| ==> NameKey in config[j]
    ensures |Reconciled(config, wmap, Some(es), store).value| == |config| + |NewEntries(Owners(Parsed(config)), es)|
  {
    var recs := Parsed(config);
    var scanned := Scan(recs, Owners(recs), es, wmap);
    ScanAppends(recs, Owners(recs), es, wmap);
    assert |scanned[|recs|..]| == |NewRecords(NewEntries(Owners(recs), es), wmap)|;
  }

  /** Config records that all carry a `name` parse to named records. */
  lemma ParsedNamed(config: seq<Attrs>)
    requires forall j :: 0 <= j < |config| ==> NameKey in config[j]
    ensures AllNamed(Parsed(config))
  {
  }

  /** With every config record named and a listing present, loading yields the scanned
      records with their tags attached. */
  lemma ReconciledSome(config: seq<Attrs>, wmap: map<string, string>, es: seq<LocalEntry>, store: TagStore)
    requires forall j :: 0 <= j < |config| ==> NameKey in config[j]
    ensures AllNamed(Parsed(config))
    ensures Reconciled(config, wmap, Some(es), store) == Some(Tagged(Scan(Parsed(config), Owners(Parsed(config)), es, wmap), store))
  {
  }

  /** Attaching tags keeps a record's name and enabled flag. */
  lemma TaggedAt(mods: seq<Record>, store: TagStore, i: nat, r: Record)
    requires AllNamed(mods) && i < |mods| && mods[i] == r
    ensures Named(r) && Tagged(mods, store)[i] == WithTags(r, store)
    ensures Tagged(mods, store)[i][NameKey] == r[NameKey]
    ensures EnabledKey in r ==> Tagged(mods, store)[i][EnabledKey] == r[EnabledKey]
  {
  }

  /** Each record past the config records after the scan is the new record for its
      unmatched directory. */
  lemma ScanAppended(recs: seq<Record>, es: seq<LocalEntry>, wmap: map<string, string>, i: nat)
    requires AllNamed(recs)
    requires |recs| <= i < |recs| + |NewEntries(Owners(recs), es)|
    ensures var scanned := Scan(recs, Owners(recs), es, wmap);
            var e := NewEntries(Owners(recs), es)[i - |recs|];
            i < |scanned| && scanned[i] == NewRecord(e, WidOf(wmap, e))
  {
    var scanned := Scan(recs, Owners(recs), es, wmap);
    ScanAppends(recs, Owners(recs), es, wmap);
    assert scanned[i] == scanned[|recs|..][i - |recs|];
  }


  /** A config record keeps its name. */
  lemma NameKept(config: seq<Attrs>, wmap: map<string, string>, local: Option<seq<LocalEntry>>, store: TagStore, i: nat)
    requires forall j :: 0 <= j < |config| ==> NameKey in config[j]
    requires i < |config|
    ensures var out := Reconciled(config, wmap, local, store).value;
            Named(out[i]) && NameOf(out[i]) == config[i][NameKey]
  {
    assert NameKey in config[i] && !ManagerKey(NameKey);
    ConfigAttributesKept(config, wmap, local, store, i);
  }

  /** Every record past the config records is the tagged new record for its unmatched
      directory: named after the directory and disabled. */
  lemma AppendedRecord(config: seq<Attrs>, wmap: map<string, string>, es: seq<LocalEntry>, store: TagStore, i: nat)
    requires forall j :: 0 <= j < |config| ==> NameKey in config[j]
    requires |config| <= i < |config| + |NewEntries(Owners(Parsed(config)), es)|
    ensures var out := Reconciled(config, wmap, Some(es), store).value;
            var e := NewEntries(Owners(Parsed(config)), es)[i - |config|];
            i < |out| && out[i] == WithTags(NewRecord(e, WidOf(wmap, e)), store) &&
            Named(out[i]) && NameOf(out[i]) == e.dirName &&
            EnabledKey in out[i] && out[i][EnabledKey] == Str("0")
  {
    var recs := Parsed(config);
    var scanned := Scan(recs, Owners(recs), es, wmap);
    ScanAppended(recs, es, wmap, i);
    ReconciledSome(config, wmap, es, store);
    TaggedAt(scanned, store, i, scanned[i]);
  }

  /** The record that represents a listed directory: the config record owning its name,
      or the record appended for it. */
  lemma ListedAt(config: seq<Attrs>, wmap: map<string, string>, es: seq<LocalEntry>, store: TagStore, e: LocalEntry)
    returns (w: nat)
    requires forall j :: 0 <= j < |config| ==> NameKey in config[j]
    requires e in es && e.isDir
    ensures var out := Reconciled(config, wmap, Some(es), store).value;
            w < |out| && Named(out[w]) && Key(out[w]) == Lower(e.dirName)
  {
    var recs := Parsed(config);
    var key := Lower(e.dirName);
    OwnersLookup(recs, key);
    if key in Owners(recs) {
      w := LastNamed(recs, key);
      NameKept(config, wmap, Some(es), store, w);
      var out := Reconciled(config, wmap, Some(es), store).value;
      assert NameOf(out[w]) == NameOf(recs[w]);
      assert Key(out[w]) == Key(recs[w]) == key;
    } else {
      w := UnmatchedListed(config, wmap, es, store, e);
    }
  }

  /** The record appended for a directory no config record names. */
  lemma UnmatchedListed(config: seq<Attrs>, wmap: map<string, string>, es: seq<LocalEntry>, store: TagStore, e: LocalEntry)
    returns (w: nat)
    requires forall j :: 0 <= j < |config| ==> NameKey in config[j]
    requires e in es && e.isDir && Lower(e.dirName) !in Owners(Parsed(config))
    ensures var out := Reconciled(config, wmap, Some(es), store).value;
            w < |out| && Named(out[w]) && NameOf(out[w]) == e.dirName
  {
    var ns := NewEntries(Owners(Parsed(config)), es);
    NewEntriesComplete(Owners(Parsed(config)), es, e);
    var k :| 0 <= k < |ns| && ns[k] == e;
    w := |config| + k;
    assert w - |config| == k;
    assert ns[w - |config|] == e;
    AppendedRecord(config, wmap, es, store, w);
  }

  /** Every listed directory ends up represented: some record carries its name up to
      case. */
  lemma EveryDirectoryListed(config: seq<Attrs>, wmap: map<string, string>, es: seq<LocalEntry>, store: TagStore, e: LocalEntry)
    requires forall j :: 0 <= j < |config| ==> NameKey in config[j]
    requires e in es && e.isDir
    ensures var out := Reconciled(config, wmap, Some(es), store).value;
            exists i :: 0 <= i < |out| && Named(out[i]) && Key(out[i]) == Lower(e.dirName)
  {
    var w := ListedAt(config, wmap, es, store, e);
  }

  /** Loading and saving back keeps the config: every attribute of a config record that
      the manager does not set itself is written out with its loaded value. */
  lemma SaveAfterLoad(config: seq<Attrs>, wmap: map<string, string>, local: Option<seq<LocalEntry>>, store: TagStore, i: nat)
    requires forall j :: 0 <= j < |config| ==> NameKey in config[j]
    requires i < |config|
    ensures var saved := Export(Reconciled(config, wmap, local, store).value);
            i < |saved| &&
            forall k :: k in config[i] && !ManagerKey(k) && !Internal(k) ==> k in saved[i] && saved[i][k] == Str(config[i][k])
  {
    ConfigAttributesKept(config, wmap, local, store, i);
  }

  /** Every appended directory is written out disabled. */
  lemma SavedNewDisabled(config: seq<Attrs>, wmap: map<string, string>, es: seq<LocalEntry>, store: TagStore, i: nat)
    requires forall j :: 0 <= j < |config| ==> NameKey in config[j]
    requires |config| <= i < |Reconciled(config, wmap, Some(es), store).value|
    ensures var saved := Export(Reconciled(config, wmap, Some(es), store).value);
            EnabledKey in saved[i] && saved[i][EnabledKey] == Str("0")
  {
    var out := Reconciled(config, wmap, Some(es), store).value;
    AppendedCount(config, wmap, es, store);
    AppendedRecord(config, wmap, es, store, i);
    assert !Internal(EnabledKey) && EnabledKey != WorkshopIdKey;
    ExportedValue(out, i, EnabledKey);
  }
}
