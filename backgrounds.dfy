/**
 The background choice offered to the user: a fixed table from the five
 Chinese labels of the radio button to either the transparent sentinel or
 an opaque colour, with transparency as the default for any other label.
 */
module Backgrounds {
  import opened Images

  datatype Background = Transparent | Solid(colour: Rgb)

  const TransparentLabel: string := "透明"
  const WhiteLabel: string := "白色"
  const BlackLabel: string := "黑色"
  const LightGrayLabel: string := "浅灰"
  const GoldLabel: string := "金色"

  /** The labels that name a colour rather than transparency. */
  const ColourLabels: set<string> := {WhiteLabel, BlackLabel, LightGrayLabel, GoldLabel}

  /** `bg_color_map`, with the hex strings `#ffffff`, `#000000`, `#f0f0f0` and `#ffcc00` read as RGB. */
  const BgColorMap: map<string, Background> := map[
    TransparentLabel := Transparent,
    WhiteLabel := Solid(Rgb(255, 255, 255)),
    BlackLabel := Solid(Rgb(0, 0, 0)),
    LightGrayLabel := Solid(Rgb(240, 240, 240)),
    GoldLabel := Solid(Rgb(255, 204, 0))
  ]

  /** `bg_color_map.get(bg_color_label, "透明")`: never fails; an unknown choice means transparent. */
  function ResolveBackground(choice: string): (bg: Background)
    ensures choice == TransparentLabel ==> bg == Transparent
    ensures choice == WhiteLabel ==> bg == Solid(Rgb(255, 255, 255))
    ensures choice == BlackLabel ==> bg == Solid(Rgb(0, 0, 0))
    ensures choice == LightGrayLabel ==> bg == Solid(Rgb(240, 240, 240))
    ensures choice == GoldLabel ==> bg == Solid(Rgb(255, 204, 0))
    ensures bg.Solid? <==> choice in ColourLabels
  {
    if choice in BgColorMap then BgColorMap[choice] else Transparent
  }
}
