/** json_storage.py, and core/json_storage.py which is the same code: a
    colour database kept as one JSON object mapping colour names to HSV
    ranges. Every call re-reads the file; a missing file or one that does
    not decode reads as the empty object.

    The file is the `file` field of a `ColorStore` and every `json.dump`
    adds one to `writes`; the path argument, encodings and the formatting
    of the dump are not modelled. */
module JsonStorage {
  import opened Common
  import opened PyDict

  type ColorDb = Dict<HsvRange>

  /** What `load_all_colors` returns for a file. */
  function LoadedColors(file: JsonFile<ColorDb>): (d: ColorDb)
    ensures file.Holds? ==> d == file.content
    ensures !file.Holds? ==> d == []
  {
    if file.Holds? then file.content else []
  }

  class ColorStore {
    var file: JsonFile<ColorDb>
    var writes: nat

    /** A parsed JSON object never repeats a key. */
    ghost predicate Valid()
      reads this
    {
      file.Holds? ==> DistinctKeys(file.content)
    }

    constructor (file: JsonFile<ColorDb>)
      requires file.Holds? ==> DistinctKeys(file.content)
      ensures Valid() && this.file == file && writes == 0
    {
      this.file := file;
      writes := 0;
    }

    /** `load_all_colors(filepath)` */
    method LoadAllColors() returns (d: ColorDb)
      requires Valid()
      ensures d == LoadedColors(file)
      ensures DistinctKeys(d)
    {
      match file {
        case Missing => return [];
        case Malformed => return [];
        case Holds(content) => return content;
      }
    }

    /** `save_color(filepath, name, hsv_data)` */
    method SaveColor(name: string, hsvData: HsvRange)
      requires Valid()
      modifies this
      ensures Valid()
      ensures file == Holds(Put(LoadedColors(old(file)), name, hsvData))
      ensures writes == old(writes) + 1
    {
      var data := LoadAllColors();
      data := Put(data, name, hsvData);
      file := Holds(data);
      writes := writes + 1;
    }

    /** `delete_color(filepath, name)` */
    method DeleteColor(name: string)
      requires Valid()
      modifies this
      ensures Valid()
      ensures name in Keys(LoadedColors(old(file))) ==>
                file == Holds(Delete(LoadedColors(old(file)), name)) && writes == old(writes) + 1
      ensures name !in Keys(LoadedColors(old(file))) ==> file == old(file) && writes == old(writes)
    {
      var data := LoadAllColors();
      if name in Keys(data) {
        data := Delete(data, name);
        file := Holds(data);
        writes := writes + 1;
      }
    }

    /** `color_exists(filepath, name)` */
    method ColorExists(name: string) returns (b: bool)
      requires Valid()
      ensures b <==> exists i | 0 <= i < |LoadedColors(file)| :: LoadedColors(file)[i].0 == name
    {
      var data := LoadAllColors();
      b := Get(data, name).Some?;
    }
  }

  // ---------------------------------------------------------------------
  // Properties of the file after each operation

  /** After `save_color`, the name is a colour of the file and loads back as
      the saved range; every other colour is untouched. */
  lemma SaveThenLoad(file: JsonFile<ColorDb>, name: string, hsvData: HsvRange)
    requires file.Holds? ==> DistinctKeys(file.content)
    ensures var after := LoadedColors(Holds(Put(LoadedColors(file), name, hsvData)));
            && name in Keys(after)
            && Get(after, name) == Some(hsvData)
            && Keys(after) == Keys(LoadedColors(file)) + {name}
            && forall other | other != name :: Get(after, other) == Get(LoadedColors(file), other)
  {
  }

  /** After `delete_color` of a stored name, the name is gone and every
      other colour is untouched. */
  lemma DeleteThenLoad(file: JsonFile<ColorDb>, name: string)
    requires file.Holds? ==> DistinctKeys(file.content)
    requires name in Keys(LoadedColors(file))
    ensures var after := LoadedColors(Holds(Delete(LoadedColors(file), name)));
            && name !in Keys(after)
            && Keys(after) == Keys(LoadedColors(file)) - {name}
            && forall other | other != name :: Get(after, other) == Get(LoadedColors(file), other)
  {
  }

  /** Saving a name that is already stored keeps the colours' order and only
      replaces its range; a new name is added at the end. */
  lemma SavePlacement(d: ColorDb, name: string, hsvData: HsvRange)
    ensures name !in Keys(d) ==> Put(d, name, hsvData) == d + [(name, hsvData)]
    ensures name in Keys(d) ==> KeyList(Put(d, name, hsvData)) == KeyList(d)
  {
    if name !in Keys(d) {
      PutAppends(d, name, hsvData);
    } else {
      PutKeepsOrder(d, name, hsvData);
    }
  }

  lemma {:induction false} PutKeepsOrder(d: ColorDb, name: string, hsvData: HsvRange)
    requires name in Keys(d)
    ensures KeyList(Put(d, name, hsvData)) == KeyList(d)
  {
    var r := Put(d, name, hsvData);
    if d[0].0 == name {
      assert r == [(name, hsvData)] + d[1..];
    } else {
      assert d == [d[0]] + d[1..];
      KeysCons(d[0], d[1..]);
      var t := Put(d[1..], name, hsvData);
      assert r == [d[0]] + t;
      PutKeepsOrder(d[1..], name, hsvData);
      forall i | 1 <= i < |d| ensures r[i].0 == d[i].0 {
        assert r[i] == t[i - 1] && d[i] == d[1..][i - 1];
        assert KeyList(t)[i - 1] == KeyList(d[1..])[i - 1];
      }
    }
  }
}
