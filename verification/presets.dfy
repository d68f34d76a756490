/**
 * Presets: snapshots of the base address and the five tracking values,
 * kept in a list that is only ever appended to and persisted whole under
 * the storage key "utmPresets".
 */
module Presets {
  import opened Wrappers
  import opened Utm

  /** The stored record the base address and one string per tracking key. */
  datatype Preset = Preset(
    baseURL: string,
    utmSource: string,
    utmMedium: string,
    utmCampaign: string,
    utmTerm: string,
    utmContent: string)

  /** The value a preset stores under a field's key. */
  function Stored(pr: Preset, f: Field): string {
    match f
    case Source => pr.utmSource
    case Medium => pr.utmMedium
    case Campaign => pr.utmCampaign
    case Term => pr.utmTerm
    case Content => pr.utmContent
  }

  /** The preset a save creates: the current base and values, verbatim. */
  function Snapshot(baseURL: string, p: Params): (pr: Preset)
    ensures pr.baseURL == baseURL
    ensures forall f :: Stored(pr, f) == Get(p, f)
  {
    Preset(baseURL, p.source, p.medium, p.campaign, p.term, p.content)
  }

  /** What `loadPreset` writes back into the editable state: the stored base
      and a record built key by key from the stored values. */
  function Restore(pr: Preset): (r: (string, Params))
    ensures r.0 == pr.baseURL
    ensures forall f :: Get(r.1, f) == Stored(pr, f)
  {
    (pr.baseURL, Params(pr.utmSource, pr.utmMedium, pr.utmCampaign, pr.utmTerm, pr.utmContent))
  }

  /** Loading a saved snapshot gives back exactly what was saved ... */
  lemma RestoreSnapshot(baseURL: string, p: Params)
    ensures Restore(Snapshot(baseURL, p)) == (baseURL, p)
  {
  }

  /** ... and saving what was loaded rebuilds the same preset. */
  lemma SnapshotRestore(pr: Preset)
    ensures Snapshot(Restore(pr).0, Restore(pr).1) == pr
  {
  }

  /** Adding a preset: one more at the end, every earlier one
      unchanged and in its place. */
  function Append(presets: seq<Preset>, pr: Preset): (r: seq<Preset>)
    ensures |r| == |presets| + 1
    ensures forall i :: 0 <= i < |presets| ==> r[i] == presets[i]
    ensures r[|presets|] == pr
  {
    presets + [pr]
  }

  /** The list the builder starts with: the stored one, or the empty list
      when nothing is stored under the key, since parsing an absent entry
      gives null and the fallback is the empty list. */
  function InitialPresets(stored: Option<seq<Preset>>): (r: seq<Preset>)
    ensures stored.None? ==> r == []
    ensures stored.Some? ==> r == stored.value
  {
    stored.GetOr([])
  }
}
