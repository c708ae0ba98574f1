/** What the two quick-preset toolbar tools share: the preset list entries they
    draw, on which they write a hotkey label in place. The toolbar machinery
    that draws them and binds the labels (modules/ui/tools/quick_presets.js)
    is not part of this model. */
module QuickPresetItems {
  import opened Common

  /** The parts of a preset the tools read: its ID and its geometry list. */
  datatype Preset = Preset(id: string, geometry: seq<string>)

  /** An entry of the favourite or the recent preset list. */
  class PresetItem {
    const preset: Preset
    /** `item.key`: the hotkey label, None while unset. */
    var key: Option<string>

    constructor(p: Preset)
      ensures preset == p && key.None?
    {
      preset := p;
      key := None;
    }
  }

  /** The entries of a list, as a frame. */
  function Items(s: seq<PresetItem>): set<PresetItem> {
    set x | x in s
  }
}
