/** controller/signal_mapper.py: the slot table kept in signal_mapping.json.
    Each slot code ("A" .. "L") maps to an optional label, an optional shape
    and an `hsv` field. Every function re-reads the file; loading fills the
    zero range into slots that have no `hsv` key and writes the file back
    only when it filled something.

    The file is the `file` field of a `SignalStore`, and every
    `save_signal_map` adds one to `writes`. A file that is not valid JSON
    makes `json.load` raise; that exception propagates, as in the source.
    JSON encoding, paths and encodings are not modelled. */
module SignalMapper {
  import opened Common
  import opened PyDict
  /** The `hsv` key of a slot: missing, present but falsy (`{}` or JSON
      null), or a range. Loading fills only a missing key, and the auto
      runner skips a slot whose key is missing or falsy. */
  datatype HsvField = Absent | Falsy | Range(range: HsvRange)

  /** One slot: the `label` and `shape` keys, a missing key or JSON null
      being None, and the `hsv` key. */
  datatype Slot = Slot(name: Option<string>, shape: Option<string>, hsv: HsvField)

  type SlotMap = Dict<Slot>

  /** A slot as `load_signal_map` leaves it: given the zero range when it
      had no `hsv` key, and otherwise untouched. */
  function Filled(s: Slot): (t: Slot)
    ensures !t.hsv.Absent?
    ensures !s.hsv.Absent? ==> t == s
    ensures s.hsv.Absent? ==> t == s.(hsv := Range(ZeroRange))
  {
    if s.hsv.Absent? then s.(hsv := Range(ZeroRange)) else s
  }

  /** The table `load_signal_map` returns for a parsed file. */
  function FillHsv(d: SlotMap): (r: SlotMap)
    ensures |r| == |d|
    ensures forall i | 0 <= i < |d| :: r[i] == (d[i].0, Filled(d[i].1))
  {
    seq(|d|, i requires 0 <= i < |d| => (d[i].0, Filled(d[i].1)))
  }

  /** Some slot has no `hsv` key, so loading writes the file back. */
  predicate NeedsFill(d: SlotMap)
  {
    exists i | 0 <= i < |d| :: d[i].1.hsv.Absent?
  }

  /** What `load_signal_map` returns (or raises) for a file. */
  function Loaded(file: JsonFile<SlotMap>): (r: Result<SlotMap>)
    ensures file.Missing? ==> r == Ok([])
    ensures file.Malformed? ==> r.Raised?
    ensures file.Holds? ==> r == Ok(FillHsv(file.content))
  {
    match file
    case Missing => Ok([])
    case Malformed => Raised("JSONDecodeError")
    case Holds(d) => Ok(FillHsv(d))
  }

  /** The file after `load_signal_map`: rewritten only when a slot was filled. */
  function FileAfterLoad(file: JsonFile<SlotMap>): (f: JsonFile<SlotMap>)
  {
    if file.Holds? && NeedsFill(file.content) then Holds(FillHsv(file.content)) else file
  }

  /** Whether `load_signal_map` writes the file. */
  function LoadWrites(file: JsonFile<SlotMap>): nat
  {
    if file.Holds? && NeedsFill(file.content) then 1 else 0
  }

  /** The first code (in file order) whose slot has exactly this name and shape. */
  function FindCode(d: SlotMap, name: string, shape: string): Option<string>
  {
    if d == [] then None
    else if d[0].1.name == Some(name) && d[0].1.shape == Some(shape) then Some(d[0].0)
    else FindCode(d[1..], name, shape)
  }

  predicate Matches(s: Slot, name: string, shape: string)
  {
    s.name == Some(name) && s.shape == Some(shape)
  }

  /** `get_slot_hsv` on a loaded table: the slot's `hsv` value when the key
      is present (a falsy one included), else the zero range. */
  function SlotHsv(d: SlotMap, code: string): (h: HsvField)
    ensures !h.Absent?
    ensures Get(d, code).None? ==> h == Range(ZeroRange)
    ensures Get(d, code).Some? && !Get(d, code).value.hsv.Absent? ==> h == Get(d, code).value.hsv
  {
    match Get(d, code)
    case Some(s) => if !s.hsv.Absent? then s.hsv else Range(ZeroRange)
    case None => Range(ZeroRange)
  }

  /** The slot codes `init_empty_slot_mapping` creates, in order. */
  const SlotCodes: string := "ABCDEFGHIJKL"

  const EmptySlot: Slot := Slot(Some(""), Some(""), Range(ZeroRange))

  /** The table `init_empty_slot_mapping` writes. */
  function DefaultSlots(n: nat): (r: SlotMap)
    requires n <= |SlotCodes|
    ensures |r| == n
    ensures forall i | 0 <= i < n :: r[i] == ([SlotCodes[i]], EmptySlot)
  {
    seq(n, i requires 0 <= i < n => ([SlotCodes[i]], EmptySlot))
  }

  /** The slot with the fields `update_slot` assigns. */
  function Updated(s: Slot, name: string, shape: string, hsvRange: Option<HsvRange>): (t: Slot)
    ensures t.name == Some(name) && t.shape == Some(shape)
    ensures t.hsv == if hsvRange.Some? then Range(hsvRange.value) else s.hsv
  {
    Slot(Some(name), Some(shape), if hsvRange.Some? then Range(hsvRange.value) else s.hsv)
  }

  /** The signal_mapping.json file and the number of times it was written. */
  class SignalStore {
    var file: JsonFile<SlotMap>
    var writes: nat

    constructor (file: JsonFile<SlotMap>)
      ensures this.file == file && writes == 0
    {
      this.file := file;
      writes := 0;
    }

    /** `save_signal_map(data)` */
    method SaveSignalMap(data: SlotMap)
      modifies this
      ensures file == Holds(data) && writes == old(writes) + 1
    {
      file := Holds(data);
      writes := writes + 1;
    }

    /** `load_signal_map()` */
    method LoadSignalMap() returns (r: Result<SlotMap>)
      modifies this
      ensures r == Loaded(old(file))
      ensures file == FileAfterLoad(old(file))
      ensures writes == old(writes) + LoadWrites(old(file))
    {
      match file {
        case Missing =>
          return Ok([]);
        case Malformed =>
          return Raised("JSONDecodeError");
        case Holds(content) =>
          var data := content;
          var modified := false;
          var k := 0;
          while k < |data|
            invariant 0 <= k <= |data| == |content|
            invariant forall i | 0 <= i < k :: data[i] == (content[i].0, Filled(content[i].1))
            invariant forall i | k <= i < |data| :: data[i] == content[i]
            invariant modified <==> exists i | 0 <= i < k :: content[i].1.hsv.Absent?
            invariant file == old(file) && writes == old(writes)
          {
            if data[k].1.hsv.Absent? {
              data := data[k := (data[k].0, data[k].1.(hsv := Range(ZeroRange)))];
              modified := true;
            }
            k := k + 1;
          }
          assert data == FillHsv(content);
          if modified {
            SaveSignalMap(data);
          }
          return Ok(data);
      }
    }

    /** `get_signal_code(name, shape)` */
    method GetSignalCode(name: string, shape: string) returns (r: Result<Option<string>>)
      modifies this
      ensures old(file).Malformed? ==> r.Raised?
      ensures !old(file).Malformed? ==> r == Ok(FindCode(Loaded(old(file)).value, name, shape))
      ensures file == FileAfterLoad(old(file))
      ensures writes == old(writes) + LoadWrites(old(file))
    {
      var loaded := LoadSignalMap();
      if loaded.Raised? {
        return Raised(loaded.error);
      }
      var signalMap := loaded.value;
      var k := 0;
      while k < |signalMap|
        invariant 0 <= k <= |signalMap|
        invariant FindCode(signalMap[k..], name, shape) == FindCode(signalMap, name, shape)
      {
        assert signalMap[k..][1..] == signalMap[k + 1..];
        var code := signalMap[k].0;
        var conf := signalMap[k].1;
        if conf.name == Some(name) && conf.shape == Some(shape) {
          return Ok(Some(code));
        }
        k := k + 1;
      }
      return Ok(None);
    }

    /** `get_all_slots()`: the loaded table. */
    method GetAllSlots() returns (r: Result<SlotMap>)
      modifies this
      ensures r == Loaded(old(file))
      ensures file == FileAfterLoad(old(file))
      ensures writes == old(writes) + LoadWrites(old(file))
    {
      r := LoadSignalMap();
    }

    /** `get_slot_hsv(code)` */
    method GetSlotHsv(code: string) returns (r: Result<HsvField>)
      modifies this
      ensures old(file).Malformed? ==> r.Raised?
      ensures !old(file).Malformed? ==> r == Ok(SlotHsv(Loaded(old(file)).value, code))
      ensures file == FileAfterLoad(old(file))
      ensures writes == old(writes) + LoadWrites(old(file))
    {
      var loaded := LoadSignalMap();
      if loaded.Raised? {
        return Raised(loaded.error);
      }
      var data := loaded.value;
      var slot := Get(data, code);
      if slot.Some? && !slot.value.hsv.Absent? {
        return Ok(slot.value.hsv);
      }
      return Ok(Range(ZeroRange));
    }

    /** `update_slot(code, name, shape, hsv_range)`; `hsv_range` None stands
        for a falsy argument. */
    method UpdateSlot(code: string, name: string, shape: string, hsvRange: Option<HsvRange>) returns (r: Result<bool>)
      modifies this
      ensures old(file).Malformed? ==> r.Raised? && file == old(file) && writes == old(writes)
      ensures !old(file).Malformed? ==>
                var data := Loaded(old(file)).value;
                if Get(data, code).None? then
                  r == Ok(false) && file == FileAfterLoad(old(file)) && writes == old(writes) + LoadWrites(old(file))
                else
                  r == Ok(true) &&
                  file == Holds(Put(data, code, Updated(Get(data, code).value, name, shape, hsvRange))) &&
                  writes == old(writes) + LoadWrites(old(file)) + 1
    {
      var loaded := LoadSignalMap();
      if loaded.Raised? {
        return Raised(loaded.error);
      }
      var data := loaded.value;
      var slot := Get(data, code);
      if slot.None? {
        return Ok(false);
      }
      var conf := slot.value;
      conf := conf.(name := Some(name));
      conf := conf.(shape := Some(shape));
      if hsvRange.Some? {
        conf := conf.(hsv := Range(hsvRange.value));
      }
      data := Put(data, code, conf);
      SaveSignalMap(data);
      return Ok(true);
    }

    /** `init_empty_slot_mapping()` */
    method InitEmptySlotMapping()
      modifies this
      ensures old(file).Missing? ==> file == Holds(DefaultSlots(12)) && writes == old(writes) + 1
      ensures !old(file).Missing? ==> file == old(file) && writes == old(writes)
    {
      if file.Missing? {
        var default: SlotMap := [];
        var k := 0;
        while k < |SlotCodes|
          invariant 0 <= k <= |SlotCodes|
          invariant default == DefaultSlots(k)
          invariant file == old(file) && writes == old(writes)
        {
          var code := [SlotCodes[k]];
          DefaultSlotsGrow(k);
          default := Put(default, code, EmptySlot);
          k := k + 1;
        }
        SaveSignalMap(default);
      }
    }
  }

  // ---------------------------------------------------------------------
  // Properties of the pure operations

  /** Filling keeps every code and its position, leaves no slot without an
      `hsv` key, and leaves slots that had one (a falsy one included) untouched. */
  lemma FillHsvSpec(d: SlotMap)
    ensures KeyList(FillHsv(d)) == KeyList(d)
    ensures !NeedsFill(FillHsv(d))
    ensures forall i | 0 <= i < |d| && !d[i].1.hsv.Absent? :: FillHsv(d)[i] == d[i]
    ensures !NeedsFill(d) ==> FillHsv(d) == d
  {
  }

  /** Loading twice is loading once: a second load neither changes the
      table nor writes the file. */
  lemma LoadIdempotent(file: JsonFile<SlotMap>)
    ensures Loaded(FileAfterLoad(file)) == Loaded(file)
    ensures LoadWrites(FileAfterLoad(file)) == 0
  {
    if file.Holds? {
      FillHsvSpec(file.content);
      var f := FillHsv(file.content);
      FillHsvSpec(f);
    }
  }

  /** `get_signal_code` returns the first code, in file order, whose name
      and shape both match, and None when no slot matches. */
  lemma {:induction false} FindCodeSpec(d: SlotMap, name: string, shape: string)
    ensures FindCode(d, name, shape).None? <==> forall i | 0 <= i < |d| :: !Matches(d[i].1, name, shape)
    ensures FindCode(d, name, shape).Some? ==>
              exists i | 0 <= i < |d| :: d[i].0 == FindCode(d, name, shape).value && Matches(d[i].1, name, shape) &&
                forall j | 0 <= j < i :: !Matches(d[j].1, name, shape)
  {
    if d != [] {
      FindCodeSpec(d[1..], name, shape);
      assert forall i | 1 <= i < |d| :: d[1..][i - 1] == d[i];
      if !Matches(d[0].1, name, shape) && FindCode(d, name, shape).Some? {
        var i :| 0 <= i < |d[1..]| && d[1..][i].0 == FindCode(d, name, shape).value && Matches(d[1..][i].1, name, shape) &&
                 forall j | 0 <= j < i :: !Matches(d[1..][j].1, name, shape);
        assert d[i + 1].0 == FindCode(d, name, shape).value && Matches(d[i + 1].1, name, shape);
        assert forall j | 0 <= j < i + 1 :: !Matches(d[j].1, name, shape) by {
          forall j | 0 <= j < i + 1 ensures !Matches(d[j].1, name, shape) {
            if j > 0 { assert d[j] == d[1..][j - 1]; }
          }
        }
      }
    }
  }

  /** Filling ranges never changes which code a name and shape map to. */
  lemma {:induction false} FindCodeIgnoresHsv(d: SlotMap, name: string, shape: string)
    ensures FindCode(FillHsv(d), name, shape) == FindCode(d, name, shape)
  {
    if d != [] {
      assert FillHsv(d)[1..] == FillHsv(d[1..]);
      FindCodeIgnoresHsv(d[1..], name, shape);
    }
  }

  /** Looking a code up in the loaded table finds the file's slot as
      `Filled` leaves it. */
  lemma {:induction false} GetFillHsv(d: SlotMap, code: string)
    ensures Get(FillHsv(d), code) == if Get(d, code).Some? then Some(Filled(Get(d, code).value)) else None
  {
    if d != [] {
      assert FillHsv(d)[1..] == FillHsv(d[1..]);
      GetFillHsv(d[1..], code);
    }
  }

  /** A present but falsy `hsv` survives loading: the slot is not filled,
      and `get_slot_hsv` returns that falsy value, not the zero range. */
  lemma FalsyHsvKept(d: SlotMap, code: string)
    requires Get(d, code).Some? && Get(d, code).value.hsv.Falsy?
    ensures Get(FillHsv(d), code) == Get(d, code)
    ensures SlotHsv(FillHsv(d), code) == Falsy
  {
    GetFillHsv(d, code);
  }

  /** The twelve slot codes are distinct. */
  lemma SlotCodesDistinct()
    ensures forall i, j | 0 <= i < j < |SlotCodes| :: SlotCodes[i] != SlotCodes[j]
  {
  }

  /** Each step of `init_empty_slot_mapping`'s loop adds a new code, so the
      assignment appends it. */
  lemma DefaultSlotsGrow(k: nat)
    requires k < |SlotCodes|
    ensures [SlotCodes[k]] !in Keys(DefaultSlots(k))
    ensures Put(DefaultSlots(k), [SlotCodes[k]], EmptySlot) == DefaultSlots(k + 1)
  {
    var d := DefaultSlots(k);
    SlotCodesDistinct();
    assert [SlotCodes[k]] !in Keys(d) by {
      forall i | 0 <= i < k ensures d[i].0 != [SlotCodes[k]] {
        assert d[i].0[0] == SlotCodes[i];
      }
    }
    PutAppends(d, [SlotCodes[k]], EmptySlot);
    assert d + [([SlotCodes[k]], EmptySlot)] == DefaultSlots(k + 1);
  }

  /** The default table: the twelve codes "A" .. "L", in order, each with an
      empty name and shape and the zero range; loading it writes nothing. */
  lemma DefaultSlotsSpec()
    ensures KeyList(DefaultSlots(12)) == ["A", "B", "C", "D", "E", "F", "G", "H", "I", "J", "K", "L"]
    ensures DistinctKeys(DefaultSlots(12))
    ensures forall i | 0 <= i < 12 :: DefaultSlots(12)[i].1 == Slot(Some(""), Some(""), Range(ZeroRange))
    ensures LoadWrites(Holds(DefaultSlots(12))) == 0
  {
    var d := DefaultSlots(12);
    SlotCodesDistinct();
    assert DistinctKeys(d) by {
      forall i, j | 0 <= i < j < 12 ensures d[i].0 != d[j].0 {
        assert d[i].0[0] == SlotCodes[i] && d[j].0[0] == SlotCodes[j];
      }
    }
    assert !NeedsFill(d);
  }

  /** After a successful update the slot holds the new name and shape, its
      range changes only when one was given, and no other code changes. */
  lemma UpdateSpec(d: SlotMap, code: string, name: string, shape: string, hsvRange: Option<HsvRange>)
    requires Get(d, code).Some?
    ensures var r := Put(d, code, Updated(Get(d, code).value, name, shape, hsvRange));
            && Keys(r) == Keys(d)
            && Get(r, code).value.name == Some(name) && Get(r, code).value.shape == Some(shape)
            && (hsvRange.None? ==> Get(r, code).value.hsv == Get(d, code).value.hsv)
            && (hsvRange.Some? ==> Get(r, code).value.hsv == Range(hsvRange.value))
            && forall c | c != code :: Get(r, c) == Get(d, c)
  {
  }
}
