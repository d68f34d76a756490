/**
 * The URL builder component as a state machine: its state values and the
 * storage entry are an explicit record, and each user action (an edit, a
 * generate, a save, a load) is a pure step from one record to the next.
 */
module UrlBuilder {
  import opened Wrappers
  import opened Utm
  import opened Presets
  import opened UrlQuery

  /** The `name` of the input an edit comes from. */
  datatype InputName = BaseUrlInput | FieldInput(field: Field)

  /** The component's state values, and what storage holds under "utmPresets". */
  datatype Builder = Builder(
    baseURL: string,
    utm: Params,
    generatedURL: string,
    presets: seq<Preset>,
    stored: Option<seq<Preset>>)

  /** The storage entry and the in-memory list agree: the entry holds the
      list, or there is no entry and the list is empty. */
  predicate InSync(b: Builder) {
    b.stored == Some(b.presets) || (b.stored == None && b.presets == [])
  }

  /** The component as first rendered: empty inputs, no generated URL, and
      the presets read from storage. */
  function Mount(stored: Option<seq<Preset>>): (b: Builder)
    ensures b.baseURL == [] && b.utm == Empty && b.generatedURL == []
    ensures stored.None? ==> b.presets == []
    ensures stored.Some? ==> b.presets == stored.value
    ensures InSync(b)
  {
    Builder([], Empty, [], InitialPresets(stored), stored)
  }

  /** `handleInputChange`: the edited input's value is replaced and nothing
      else; in particular a URL generated earlier stays as it was. */
  function HandleInputChange(b: Builder, name: InputName, value: string): (r: Builder)
    ensures name.BaseUrlInput? ==> r.baseURL == value && r.utm == b.utm
    ensures name.FieldInput? ==> r.baseURL == b.baseURL && Get(r.utm, name.field) == value
    ensures name.FieldInput? ==> forall g :: g != name.field ==> Get(r.utm, g) == Get(b.utm, g)
    ensures r.generatedURL == b.generatedURL && r.presets == b.presets && r.stored == b.stored
  {
    match name
    case BaseUrlInput => b.(baseURL := value)
    case FieldInput(f) => b.(utm := With(b.utm, f, value))
  }

  /** `generateURL`: the generated URL is recomputed from the current base
      and values; nothing else changes. */
  function GenerateURL(b: Builder): (r: Builder)
    ensures |r.generatedURL| > |b.baseURL| && r.generatedURL[..|b.baseURL|] == b.baseURL
    ensures r.generatedURL[|b.baseURL|] == (if '?' in b.baseURL then '&' else '?')
    ensures ParseQuery(r.generatedURL[|b.baseURL| + 1..]) == Some(KeepFilled(Entries(b.utm)))
    ensures r.baseURL == b.baseURL && r.utm == b.utm && r.presets == b.presets && r.stored == b.stored
  {
    b.(generatedURL := Compose(b.baseURL, b.utm))
  }

  /** `savePreset`: a snapshot of the current base and values is appended,
      earlier presets keep their places, and storage is rewritten with the
      whole new list. */
  function SavePreset(b: Builder): (r: Builder)
    ensures |r.presets| == |b.presets| + 1
    ensures r.presets[..|b.presets|] == b.presets
    ensures Restore(r.presets[|b.presets|]) == (b.baseURL, b.utm)
    ensures r.stored == Some(r.presets)
    ensures r.baseURL == b.baseURL && r.utm == b.utm && r.generatedURL == b.generatedURL
  {
    RestoreSnapshot(b.baseURL, b.utm);
    var updated := Append(b.presets, Snapshot(b.baseURL, b.utm));
    assert updated[..|b.presets|] == b.presets;
    b.(presets := updated, stored := Some(updated))
  }

  /** `loadPreset`: the preset's base and values become the editable state;
      the list, the storage and any generated URL are left alone. */
  function LoadPreset(b: Builder, pr: Preset): (r: Builder)
    ensures r.baseURL == pr.baseURL
    ensures forall f :: Get(r.utm, f) == Stored(pr, f)
    ensures r.generatedURL == b.generatedURL && r.presets == b.presets && r.stored == b.stored
  {
    var (baseURL, utm) := Restore(pr);
    b.(baseURL := baseURL, utm := utm)
  }

  /** What a user can do: type into an input, press Generate or Save
      Preset, or press Load beside a listed preset. */
  datatype Action = Edit(name: InputName, value: string) | Generate | Save | Load(preset: Preset)

  /** One user action. No action removes or reorders presets, and none
      lets the storage entry fall behind the list. */
  function Step(b: Builder, a: Action): (r: Builder)
    ensures b.presets <= r.presets
    ensures InSync(b) ==> InSync(r)
  {
    match a
    case Edit(name, value) => HandleInputChange(b, name, value)
    case Generate => GenerateURL(b)
    case Save => SavePreset(b)
    case Load(pr) => LoadPreset(b, pr)
  }

  /** A sequence of user actions, one after another. Whatever the user
      does, presets are only ever added at the end, and the storage entry
      keeps holding the in-memory list. */
  function Run(b: Builder, actions: seq<Action>): (r: Builder)
    ensures b.presets <= r.presets
    ensures InSync(b) ==> InSync(r)
    decreases |actions|
  {
    if |actions| == 0 then b else Run(Step(b, actions[0]), actions[1..])
  }

  /** A save survives a reload: the list read from storage by a fresh
      builder is the list just saved. */
  lemma ReloadAfterSave(b: Builder)
    ensures Mount(SavePreset(b).stored).presets == SavePreset(b).presets
  {
  }

  /** Loading the preset just saved restores the base and values it was saved from. */
  lemma SaveThenLoad(b: Builder)
    ensures var s := SavePreset(b);
      LoadPreset(s, s.presets[|s.presets| - 1]).baseURL == b.baseURL
      && LoadPreset(s, s.presets[|s.presets| - 1]).utm == b.utm
  {
  }
}
