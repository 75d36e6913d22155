/** controller/auto_runner.py: automatic mode. While enabled, every frame
    re-reads the slot table, walks the slot codes in sorted order, skips a
    slot with a falsy label, shape or `hsv` value, and stops at the first slot
    whose range finds a contour of the slot's shape; its code is sent when
    it differs from the code sent last. Switching the mode forgets the last
    code sent.

    `apply_hsv_filter` followed by `detect_shape` is the parameter `detect`
    (the modules defining them are not part of this model), `send_signal`
    appends to the log `sent`, and `sorted` on the codes is `SortCodes`. */
module AutoRunnerModel {
  import opened Common
  import opened PyDict
  import opened SignalMapper

  // ---------------------------------------------------------------------
  // `sorted` on the slot codes

  /** Python's `<` on strings: code point by code point, a proper prefix first. */
  predicate LexLess(a: string, b: string)
  {
    if a == [] then b != []
    else if b == [] then false
    else if a[0] != b[0] then a[0] < b[0]
    else LexLess(a[1..], b[1..])
  }

  predicate LexLeq(a: string, b: string)
  {
    a == b || LexLess(a, b)
  }

  lemma {:induction false} LexTotal(a: string, b: string)
    ensures LexLeq(a, b) || LexLeq(b, a)
  {
    if a != [] && b != [] && a[0] == b[0] {
      LexTotal(a[1..], b[1..]);
      assert a == [a[0]] + a[1..] && b == [b[0]] + b[1..];
    }
  }

  lemma {:induction false} LexTrans(a: string, b: string, c: string)
    requires LexLess(a, b) && LexLess(b, c)
    ensures LexLess(a, c)
  {
    if a != [] && b != [] && c != [] && a[0] == b[0] && b[0] == c[0] {
      LexTrans(a[1..], b[1..], c[1..]);
    }
  }

  lemma LexLeqTrans(a: string, b: string, c: string)
    requires LexLeq(a, b) && LexLeq(b, c)
    ensures LexLeq(a, c)
  {
    if a != b && b != c {
      LexTrans(a, b, c);
    }
  }

  predicate SortedCodes(s: seq<string>)
  {
    forall i, j | 0 <= i < j < |s| :: LexLeq(s[i], s[j])
  }

  /** `x` inserted before the first element it does not exceed. */
  function Insert(x: string, s: seq<string>): (r: seq<string>)
    requires SortedCodes(s)
    ensures multiset(r) == multiset(s) + multiset{x}
    ensures SortedCodes(r)
  {
    if s == [] then [x]
    else if LexLeq(x, s[0]) then
      forall j | 0 <= j < |s| ensures LexLeq(x, s[j]) {
        if j > 0 { LexLeqTrans(x, s[0], s[j]); }
      }
      [x] + s
    else
      var t := Insert(x, s[1..]);
      assert s == [s[0]] + s[1..];
      LexTotal(x, s[0]);
      forall j | 0 <= j < |t| ensures LexLeq(s[0], t[j]) {
        assert t[j] in multiset(t);
        if t[j] != x {
          assert t[j] in multiset(s[1..]);
          var k :| 0 <= k < |s[1..]| && s[1..][k] == t[j];
          assert s[k + 1] == t[j];
        }
      }
      [s[0]] + t
  }

  /** `sorted(codes)` */
  function SortCodes(codes: seq<string>): (r: seq<string>)
    ensures multiset(r) == multiset(codes)
    ensures SortedCodes(r)
  {
    if codes == [] then []
    else
      assert codes == [codes[0]] + codes[1..];
      Insert(codes[0], SortCodes(codes[1..]))
  }

  // ---------------------------------------------------------------------
  // One frame

  /** The slot can be used: its label and shape are non-empty strings and
      its `hsv` value is a range (not missing, `{}` or null). */
  predicate Usable(s: Slot)
  {
    Truthy(s.name) && Truthy(s.shape) && s.hsv.Range?
  }

  /** Slot `code` of `slots` is usable and its range finds its shape in `img`. */
  predicate Hit<Img>(slots: SlotMap, code: string, img: Img, detect: (Img, HsvRange) -> (bool, string))
  {
    var conf := Get(slots, code);
    conf.Some? && Usable(conf.value) &&
    detect(img, conf.value.hsv.range).0 && detect(img, conf.value.hsv.range).1 == conf.value.shape.value
  }

  /** The first code of `codes` that hits, if any. */
  function FirstHit<Img>(codes: seq<string>, slots: SlotMap, img: Img, detect: (Img, HsvRange) -> (bool, string)): Option<string>
  {
    if codes == [] then None
    else if Hit(slots, codes[0], img, detect) then Some(codes[0])
    else FirstHit(codes[1..], slots, img, detect)
  }

  /** The send gate: a matched code is sent and remembered when it is not
      the code sent last. */
  function SendOnChange(lastSent: Option<string>, sent: seq<string>, m: Option<string>): (r: (Option<string>, seq<string>))
    ensures m.None? ==> r == (lastSent, sent)
    ensures m.Some? ==> r.0 == m
    ensures m.Some? && m == lastSent ==> r.1 == sent
    ensures m.Some? && m != lastSent ==> r.1 == sent + [m.value]
  {
    if m.Some? && lastSent != m then (m, sent + [m.value]) else (lastSent, sent)
  }

  class AutoRunner {
    var enabled: bool
    var lastSent: Option<string>
    /** The codes handed to `send_signal`, in order. */
    var sent: seq<string>

    constructor ()
      ensures !enabled && lastSent == None && sent == []
    {
      enabled := false;
      lastSent := None;
      sent := [];
    }

    /** `set_enabled(flag)` */
    method SetEnabled(flag: bool)
      modifies this
      ensures enabled == flag && lastSent == None && sent == old(sent)
    {
      enabled := flag;
      lastSent := None;
    }

    /** `process_frame(bgr_img)` */
    method ProcessFrame<Img>(bgrImg: Img, store: SignalStore, detect: (Img, HsvRange) -> (bool, string)) returns (r: Result<Img>)
      modifies this, store
      ensures enabled == old(enabled)
      ensures !old(enabled) ==>
                r == Ok(bgrImg) && lastSent == old(lastSent) && sent == old(sent) &&
                store.file == old(store.file) && store.writes == old(store.writes)
      ensures old(enabled) ==>
                store.file == FileAfterLoad(old(store.file)) &&
                store.writes == old(store.writes) + LoadWrites(old(store.file))
      ensures old(enabled) && old(store.file).Malformed? ==>
                r.Raised? && lastSent == old(lastSent) && sent == old(sent)
      ensures old(enabled) && !old(store.file).Malformed? ==>
                var slots := Loaded(old(store.file)).value;
                r == Ok(bgrImg) &&
                (lastSent, sent) == SendOnChange(old(lastSent), old(sent),
                                                 FirstHit(SortCodes(KeyList(slots)), slots, bgrImg, detect))
    {
      if !enabled {
        return Ok(bgrImg);
      }
      var loaded := store.GetAllSlots();
      if loaded.Raised? {
        return Raised(loaded.error);
      }
      var slots := loaded.value;
      var order := SortCodes(KeyList(slots));
      SortedCodesAreKeys(slots);
      var k := 0;
      while k < |order|
        invariant 0 <= k <= |order|
        invariant FirstHit(order[k..], slots, bgrImg, detect) == FirstHit(order, slots, bgrImg, detect)
        invariant lastSent == old(lastSent) && sent == old(sent) && enabled == old(enabled)
      {
        assert order[k..][1..] == order[k + 1..];
        var code := order[k];
        var conf := Get(slots, code).value;
        var hsvRange := conf.hsv;
        var name := if conf.name.Some? then conf.name.value else "";
        var shape := if conf.shape.Some? then conf.shape.value else "";
        if name == "" || shape == "" || !hsvRange.Range? {
          assert !Hit(slots, code, bgrImg, detect);
          k := k + 1;
          continue;
        }
        var (found, detectedShape) := detect(bgrImg, hsvRange.range);
        if found && detectedShape == shape {
          assert FirstHit(order, slots, bgrImg, detect) == Some(code) by {
            assert Hit(slots, code, bgrImg, detect);
          }
          if lastSent != Some(code) {
            sent := sent + [code];
            lastSent := Some(code);
          }
          return Ok(bgrImg);
        }
        assert !Hit(slots, code, bgrImg, detect);
        k := k + 1;
      }
      assert FirstHit(order, slots, bgrImg, detect) == None;
      return Ok(bgrImg);
    }
  }

  // ---------------------------------------------------------------------
  // Properties

  /** The scan answers None exactly when no code hits, and otherwise the
      first code, in scan order, that hits: one code at most per frame. */
  lemma {:induction false} FirstHitSpec<Img>(codes: seq<string>, slots: SlotMap, img: Img, detect: (Img, HsvRange) -> (bool, string))
    ensures FirstHit(codes, slots, img, detect).None? <==> forall i | 0 <= i < |codes| :: !Hit(slots, codes[i], img, detect)
    ensures FirstHit(codes, slots, img, detect).Some? ==>
              exists i | 0 <= i < |codes| :: codes[i] == FirstHit(codes, slots, img, detect).value &&
                Hit(slots, codes[i], img, detect) &&
                forall j | 0 <= j < i :: !Hit(slots, codes[j], img, detect)
  {
    if codes != [] {
      FirstHitSpec(codes[1..], slots, img, detect);
      var m := FirstHit(codes, slots, img, detect);
      if !Hit(slots, codes[0], img, detect) {
        forall i | 1 <= i < |codes| ensures codes[i] == codes[1..][i - 1] { }
        if m.Some? {
          var i :| 0 <= i < |codes[1..]| && codes[1..][i] == m.value && Hit(slots, codes[1..][i], img, detect) &&
                   forall j | 0 <= j < i :: !Hit(slots, codes[1..][j], img, detect);
          forall j | 0 <= j < i + 1 ensures !Hit(slots, codes[j], img, detect) {
            if j > 0 { assert codes[j] == codes[1..][j - 1]; }
          }
          assert codes[i + 1] == m.value;
        }
      }
    }
  }

  /** A matched code is a slot code whose slot has a label, a shape and a
      range, and that range finds the slot's shape in the frame. */
  lemma FirstHitIsUsableSlot<Img>(slots: SlotMap, img: Img, detect: (Img, HsvRange) -> (bool, string))
    ensures var m := FirstHit(SortCodes(KeyList(slots)), slots, img, detect);
            m.Some? ==> && m.value in Keys(slots)
                        && var s := Get(slots, m.value).value;
                        && Truthy(s.name) && Truthy(s.shape) && s.hsv.Range?
                        && detect(img, s.hsv.range) == (true, s.shape.value)
  {
    var codes := SortCodes(KeyList(slots));
    FirstHitSpec(codes, slots, img, detect);
  }

  /** What the `hsv` key of a slot in the file does to a frame: a falsy
      value (`{}` or null) means the code is never sent, and a missing key,
      filled with the zero range on load, means the slot is scanned with
      the zero range. */
  lemma HsvKeyDecidesScan<Img>(d: SlotMap, code: string, img: Img, detect: (Img, HsvRange) -> (bool, string))
    requires Get(d, code).Some?
    ensures Get(d, code).value.hsv.Falsy? ==>
              FirstHit(SortCodes(KeyList(FillHsv(d))), FillHsv(d), img, detect) != Some(code)
    ensures var s := Get(d, code).value;
            s.hsv.Absent? && Truthy(s.name) && Truthy(s.shape) ==>
              (Hit(FillHsv(d), code, img, detect) <==> detect(img, ZeroRange) == (true, s.shape.value))
  {
    GetFillHsv(d, code);
    FirstHitIsUsableSlot(FillHsv(d), img, detect);
  }

  /** Every code of the scan order is a slot code. */
  lemma SortedCodesAreKeys(slots: SlotMap)
    ensures forall c | c in SortCodes(KeyList(slots)) :: c in Keys(slots)
  {
    var ks := KeyList(slots);
    forall c | c in SortCodes(ks) ensures c in Keys(slots) {
      assert c in multiset(ks);
      var i :| 0 <= i < |ks| && ks[i] == c;
      assert slots[i].0 == c;
    }
  }

  lemma RepeatCounts(s: seq<string>, i: nat, j: nat)
    requires i < j < |s| && s[i] == s[j]
    ensures multiset(s)[s[i]] >= 2
  {
    assert s == s[..j] + [s[j]] + s[j + 1..];
    assert s[..j][i] == s[i];
  }

  lemma {:induction false} DistinctKeysOnce(slots: SlotMap)
    requires DistinctKeys(slots)
    ensures forall x :: multiset(KeyList(slots))[x] <= 1
  {
    if slots != [] {
      var t := slots[1..];
      DistinctKeysOnce(t);
      assert KeyList(slots) == [slots[0].0] + KeyList(t);
      assert slots[0].0 !in KeyList(t);
    }
  }

  /** With distinct codes the scan order is strictly increasing. */
  lemma SortedStrictly(slots: SlotMap)
    requires DistinctKeys(slots)
    ensures var codes := SortCodes(KeyList(slots));
            forall i, j | 0 <= i < j < |codes| :: LexLess(codes[i], codes[j])
  {
    var codes := SortCodes(KeyList(slots));
    DistinctKeysOnce(slots);
    forall i, j | 0 <= i < j < |codes| ensures LexLess(codes[i], codes[j]) {
      if codes[i] == codes[j] {
        RepeatCounts(codes, i, j);
        assert false;
      }
    }
  }

  /** The same match twice in a row is sent once. */
  lemma RepeatSendsOnce(lastSent: Option<string>, sent: seq<string>, m: Option<string>)
    ensures var s := SendOnChange(lastSent, sent, m);
            SendOnChange(s.0, s.1, m) == s
  {
  }

  /** After the mode is switched, the first match is sent even when it is
      the code sent just before the switch. */
  lemma ResendAfterModeSwitch(sent: seq<string>, code: string)
    ensures SendOnChange(None, sent, Some(code)) == (Some(code), sent + [code])
  {
  }
}
