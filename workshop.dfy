/** The workshop index, `build_workshop_map` (NoitaModManager.py:582-602): it maps the
    lower-cased folder name a subscribed mod uses to its numeric subscription id. The
    directory listing of the subscription cache is an input; a cache directory that does
    not exist is an empty listing. */
module Workshop {
  import opened Text
  import opened Records

  /** One entry of the subscription cache listing. `idFile` is the text of its
      `mod_id.txt`, or None when that file is missing or cannot be read. */
  datatype CacheEntry = CacheEntry(dirName: string, isDir: bool, idFile: Option<string>)

  /** An entry the scan records: a digit-only directory whose `mod_id.txt` is non-blank. */
  predicate Contributes(e: CacheEntry) {
    IsDigits(e.dirName) && e.isDir && e.idFile.Some? && Strip(e.idFile.value) != []
  }

  /** The key an entry is filed under: its trimmed `mod_id.txt`, lower-cased. */
  function IdKey(e: CacheEntry): string
    requires Contributes(e)
  {
    Lower(Strip(e.idFile.value))
  }

  predicate Provides(e: CacheEntry, key: string) {
    Contributes(e) && IdKey(e) == key
  }

  /** Index of the last entry filed under `key`, or -1 when there is none. */
  function LastProvider(es: seq<CacheEntry>, key: string): (j: int)
    ensures -1 <= j < |es|
    ensures j >= 0 ==> Provides(es[j], key)
    ensures forall j' :: j < j' < |es| ==> !Provides(es[j'], key)
  {
    if es == [] then -1
    else if Provides(es[|es| - 1], key) then |es| - 1
    else LastProvider(es[..|es| - 1], key)
  }

  /** The index as the scan leaves it: entries are filed in listing order, a later entry
      overwriting an earlier one under the same key. */
  function WorkshopIndex(es: seq<CacheEntry>): map<string, string> {
    if es == [] then map[]
    else
      var m := WorkshopIndex(es[..|es| - 1]);
      var e := es[|es| - 1];
      if Contributes(e) then m[IdKey(e) := e.dirName] else m
  }

  /** A key is in the index exactly when some entry is filed under it, and it maps to the
      directory name (the subscription id) of the last such entry. */
  lemma {:induction false} WorkshopIndexLookup(es: seq<CacheEntry>, key: string)
    ensures key in WorkshopIndex(es) <==> LastProvider(es, key) >= 0
    ensures key in WorkshopIndex(es) ==> WorkshopIndex(es)[key] == es[LastProvider(es, key)].dirName
  {
    if es != [] {
      var init := es[..|es| - 1];
      WorkshopIndexLookup(init, key);
      if !Provides(es[|es| - 1], key) {
        var j := LastProvider(init, key);
        if j >= 0 { assert init[j] == es[j]; }
      }
    }
  }

  /** `workshop_map.get(key, '0')`. */
  function IdFor(m: map<string, string>, key: string): string {
    if key in m then m[key] else "0"
  }

  /** The scan loop of `build_workshop_map`. */
  method BuildWorkshopMap(es: seq<CacheEntry>) returns (idMap: map<string, string>)
    ensures idMap == WorkshopIndex(es)
  {
    idMap := map[];
    for i := 0 to |es|
      invariant idMap == WorkshopIndex(es[..i])
    {
      assert es[..i + 1][..i] == es[..i];
      var e := es[i];
      if !IsDigits(e.dirName) { continue; }
      if !e.isDir { continue; }
      if e.idFile.Some? {
        var name := Strip(e.idFile.value);
        if name != [] {
          idMap := idMap[Lower(name) := e.dirName];
        }
      }
    }
    assert es[..|es|] == es;
  }
}
