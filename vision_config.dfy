/** The vision configuration module (utils/vision_processing/config.py): the
    constant (colour, shape) -> action table and the module-global colour
    table that `load_color_ranges` / `save_color_ranges` keep in step with the
    JSON file. The file is a value of the model; opening, encoding and
    decoding it are not. */
module VisionConfig {
  import opened Common
  import opened PyDict

  /** Colour name -> (lower, upper) HSV bounds, in file order. */
  type ColorTable = Dict<Bounds>

  /** Colour and shape -> control command. The root config.py holds the same
      table, so the root detector uses this constant too. */
  const ActionMap: map<(string, string), string> := map[
    ("Red", "Triangle") := "A",
    ("Red", "Square") := "B",
    ("Blue", "Triangle") := "C",
    ("Blue", "Square") := "D"]

  /** The table names four distinct commands for its four keys. */
  lemma ActionMapInjective()
    ensures ActionMap.Values == {"A", "B", "C", "D"}
    ensures forall k1, k2 | k1 in ActionMap && k2 in ActionMap && k1 != k2 :: ActionMap[k1] != ActionMap[k2]
  {
    assert ActionMap[("Red", "Triangle")] == "A";
    assert ActionMap[("Red", "Square")] == "B";
    assert ActionMap[("Blue", "Triangle")] == "C";
    assert ActionMap[("Blue", "Square")] == "D";
  }

  /** What `load_color_ranges` ends up with for a given file: the parsed
      table, or an empty one when the file is missing, does not decode, or
      cannot be read. */
  function LoadedRanges(file: JsonFile<ColorTable>): (r: ColorTable)
    ensures file.Holds? ==> r == file.content
    ensures !file.Holds? ==> r == []
  {
    match file
    case Holds(t) => t
    case Malformed => []
    case Missing => []
  }

  /** How the write in `save_color_ranges` went: it succeeded, `open` failed
      (the file is untouched), or `json.dump` failed after `open(..., "w")`
      had truncated the file. */
  datatype WriteOutcome = Written | OpenFailed | DumpFailed

  /** The file after `save_color_ranges(newRanges)`. */
  function SavedFile(file: JsonFile<ColorTable>, newRanges: ColorTable, outcome: WriteOutcome): (f: JsonFile<ColorTable>)
    ensures outcome == Written ==> LoadedRanges(f) == newRanges
    ensures outcome == OpenFailed ==> f == file
    ensures outcome == DumpFailed ==> LoadedRanges(f) == []
  {
    match outcome
    case Written => Holds(newRanges)
    case OpenFailed => file
    case DumpFailed => Malformed
  }

  /** The module state: the configuration file and the global `color_ranges`. */
  class ColorConfig {
    var file: JsonFile<ColorTable>
    var colorRanges: ColorTable

    /** Importing the module runs `load_color_ranges()` once. */
    constructor (file: JsonFile<ColorTable>)
      ensures this.file == file
      ensures colorRanges == LoadedRanges(file)
    {
      this.file := file;
      colorRanges := LoadedRanges(file);
    }

    /** `load_color_ranges()`: stores what it read (or {}) in the global and
        returns exactly that value. */
    method LoadColorRanges() returns (r: ColorTable)
      modifies this`colorRanges
      ensures r == colorRanges
      ensures r == LoadedRanges(file)
    {
      match file {
        case Holds(t) =>
          colorRanges := t;
        case Malformed =>
          colorRanges := [];
        case Missing =>
          colorRanges := [];
      }
      r := colorRanges;
    }

    /** `save_color_ranges(new_ranges)`: the global follows only a write
        that succeeded; a failed one leaves it as it was. */
    method SaveColorRanges(newRanges: ColorTable, outcome: WriteOutcome)
      modifies this
      ensures file == SavedFile(old(file), newRanges, outcome)
      ensures colorRanges == if outcome == Written then newRanges else old(colorRanges)
    {
      file := SavedFile(file, newRanges, outcome);
      if outcome == Written {
        colorRanges := newRanges;
      }
    }
  }

  /** Saving then loading gives back the saved table, in the global and as
      the return value. */
  method SaveThenLoad(cfg: ColorConfig, ranges: ColorTable) returns (r: ColorTable)
    modifies cfg
    ensures r == ranges && cfg.colorRanges == ranges
  {
    cfg.SaveColorRanges(ranges, Written);
    r := cfg.LoadColorRanges();
  }
}
