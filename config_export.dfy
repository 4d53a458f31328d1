/** The config writer, `generate_xml_content` (NoitaModManager.py:91-101): each record
    becomes the attribute set of one `<Mod>` element, in record order. The XML text
    itself (declaration line, escaping) is not modelled: the result is the sequence of
    attribute maps. */
module ConfigExport {
  import opened Records

  /** A key the manager keeps to itself: it starts with `_`. */
  predicate Internal(k: string) {
    |k| > 0 && k[0] == '_'
  }

  /** The attributes written for one record: every key not starting with `_`, with a
      present `workshop_item_id` forced to `'0'` so the game loads the mod as local. */
  function ExportRecord(r: Record): (a: map<string, Value>)
    ensures forall k :: k in a <==> k in r && !Internal(k)
    ensures forall k :: k in a && k != WorkshopIdKey ==> a[k] == r[k]
    ensures WorkshopIdKey in a ==> a[WorkshopIdKey] == Str("0")
  {
    var clean := map k | k in r && !Internal(k) :: r[k];
    if WorkshopIdKey in clean then clean[WorkshopIdKey := Str("0")] else clean
  }

  /** The whole config: one attribute set per record, in the same order. No key starting
      with `_` survives, every `workshop_item_id` written is `'0'`, a record without one
      gets none, and everything else (including `user_tags` and `workshop_tags`) passes
      through unchanged. */
  function Export(mods: seq<Record>): (out: seq<map<string, Value>>)
    ensures |out| == |mods|
    ensures forall i, k :: 0 <= i < |mods| ==> (k in out[i] <==> k in mods[i] && !Internal(k))
    ensures forall i, k :: 0 <= i < |mods| && k in mods[i] && !Internal(k) && k != WorkshopIdKey ==>
              k in out[i] && out[i][k] == mods[i][k]
    ensures forall i :: 0 <= i < |mods| && WorkshopIdKey in out[i] ==> out[i][WorkshopIdKey] == Str("0")
  {
    seq(|mods|, i requires 0 <= i < |mods| => ExportRecord(mods[i]))
  }

  /** One attribute read back from the written config. */
  lemma ExportedValue(mods: seq<Record>, i: nat, k: string)
    requires i < |mods| && k in mods[i] && !Internal(k) && k != WorkshopIdKey
    ensures i < |Export(mods)| && k in Export(mods)[i] && Export(mods)[i][k] == mods[i][k]
  {
  }
}
