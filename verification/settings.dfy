/** The tool configuration the user interface forwards into the engine. */
module Settings {
  import opened Wrappers

  datatype Tool = Brush | Airbrush | Eraser | Filler | Picker

  /** Scale of the opacity, density and threshold sliders. */
  const OpacityMax: int := 100
  const DensityMax: int := 100
  const ThresholdMax: int := 100

  function ToolName(t: Tool): string
  {
    match t
    case Brush => "brush"
    case Airbrush => "airbrush"
    case Eraser => "eraser"
    case Filler => "filler"
    case Picker => "picker"
  }

  /** The tool with a given name, if there is one. */
  function ParseTool(name: string): (r: Option<Tool>)
    ensures r.Some? ==> ToolName(r.value) == name
    ensures r.None? ==> forall t: Tool :: ToolName(t) != name
  {
    match name
    case "brush" => Some(Brush)
    case "airbrush" => Some(Airbrush)
    case "eraser" => Some(Eraser)
    case "filler" => Some(Filler)
    case "picker" => Some(Picker)
    case _ => None
  }

  /** A slider value in `0..max`, stored as a fraction of `max`. */
  function Normalise(v: int, max: int): (r: real)
    requires 0 < max && 0 <= v <= max
    ensures 0.0 <= r <= 1.0
    ensures r * max as real == v as real
    ensures r == 0.0 <==> v == 0
    ensures r == 1.0 <==> v == max
  {
    v as real / max as real
  }
}
