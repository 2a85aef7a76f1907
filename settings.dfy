/** The two tables that turn a requested reduction percent into encoder
    settings: a JPEG quality for the image re-encoder and a Ghostscript
    preset with its resolution. */
module Settings {

  import opened Wrappers

  /** `calculate_target_quality`: 100 minus the percent, clamped to [10, 95]. */
  function CalculateTargetQuality(percent: int): (q: int)
    ensures 10 <= q <= 95
    ensures 5 <= percent <= 90 ==> q == 100 - percent
    ensures percent < 5 ==> q == 95
    ensures percent > 90 ==> q == 10
  {
    Max(10, Min(95, 100 - percent))
  }

  /** Asking for more reduction never raises the quality. */
  lemma QualityNonIncreasing(p1: int, p2: int)
    requires p1 <= p2
    ensures CalculateTargetQuality(p1) >= CalculateTargetQuality(p2)
  {
  }

  /** The worked values of the source's comment: 0 gives 95, 50 gives 50,
      90 gives 10. */
  lemma QualityExamples()
    ensures CalculateTargetQuality(0) == 95
    ensures CalculateTargetQuality(50) == 50
    ensures CalculateTargetQuality(90) == 10
  {
  }

  /** The dictionary `get_ghostscript_settings` returns. */
  datatype GsSettings = GsSettings(setting: string, resolution: int, desc: string)

  /** The four Ghostscript presets, from the highest quality to the lowest. */
  const Presets: seq<string> := ["/prepress", "/printer", "/ebook", "/screen"]

  /** The resolution that goes with each preset of the table. */
  function PresetResolution(setting: string): int {
    if setting == "/prepress" || setting == "/printer" then 300
    else if setting == "/ebook" then 150
    else 72
  }

  /** `get_ghostscript_settings`: the preset for the percent's band. */
  function GhostscriptSettings(percent: int): (s: GsSettings)
    ensures s.setting in Presets
    ensures s.resolution == PresetResolution(s.setting)
  {
    if percent <= 20 then GsSettings("/prepress", 300, "High quality (prepress)")
    else if percent <= 40 then GsSettings("/printer", 300, "Good quality (printer)")
    else if percent <= 60 then GsSettings("/ebook", 150, "Medium quality (ebook)")
    else GsSettings("/screen", 72, "Lower quality (screen)")
  }

  /** Each preset is chosen for exactly one band of percents: up to 20,
      21 to 40, 41 to 60, and above 60. */
  lemma SettingsBands(percent: int)
    ensures GhostscriptSettings(percent).setting == "/prepress" <==> percent <= 20
    ensures GhostscriptSettings(percent).setting == "/printer" <==> 20 < percent <= 40
    ensures GhostscriptSettings(percent).setting == "/ebook" <==> 40 < percent <= 60
    ensures GhostscriptSettings(percent).setting == "/screen" <==> 60 < percent
  {
  }

  /** The position of a preset in `Presets`, from 0 (best quality) to 3. */
  function PresetRank(setting: string): (k: int)
    requires setting in Presets
    ensures 0 <= k < |Presets| && Presets[k] == setting
  {
    if setting == "/prepress" then 0
    else if setting == "/printer" then 1
    else if setting == "/ebook" then 2
    else 3
  }

  /** Asking for more reduction never picks a better-quality preset nor a
      higher resolution. */
  lemma SettingsMonotone(p1: int, p2: int)
    requires p1 <= p2
    ensures PresetRank(GhostscriptSettings(p1).setting) <= PresetRank(GhostscriptSettings(p2).setting)
    ensures GhostscriptSettings(p1).resolution >= GhostscriptSettings(p2).resolution
  {
  }
}
