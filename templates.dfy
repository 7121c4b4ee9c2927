/** The layout template registry (server/config/templates.js): two constant
    templates, lookup with a fallback to `classic-2x3`, the photo-count
    validator, the summary list, and the aspect-ratio parser. */
module Templates {
  import opened Common

  /** One placement rectangle of a layout, in strip pixels. */
  datatype Slot = Slot(width: nat, height: nat, left: nat, top: nat, aspectRatio: string)

  datatype FrameSize = FrameSize(width: nat, height: nat, description: string, orientation: string)

  /** The rectangle a `logoPosition` would give (no template defines one). */
  datatype Rect = Rect(width: nat, height: nat, left: nat, top: nat)

  datatype Template = Template(
    name: string,
    description: string,
    captureCount: nat,
    selectCount: nat,
    stripWidth: nat,
    stripHeight: nat,
    hasFrame: bool,
    layout: seq<Slot>,
    frameSize: FrameSize,
    logoPosition: Option<Rect>,
    /** `template.photoCount`, read by the compose controller: no template
        defines it, so it is None (JavaScript `undefined`) in both. */
    photoCount: Option<nat>)

  const HorizontalSingleId: string := "horizontal-single"
  const DefaultId: string := "classic-2x3"

  const HorizontalSingle: Template := Template(
    "Horizontal Single", "1 foto besar horizontal",
    5, 1, 1800, 1200, true,
    [Slot(1700, 1100, 50, 50, "16:9")],
    FrameSize(1800, 1200, "Frame horizontal 6x4 inch @ 300dpi", "landscape"),
    None, None)

  const Classic2x3: Template := Template(
    "Classic 2x3", "6 foto layout 2 kolom x 3 baris",
    8, 6, 1200, 1800, true,
    [ Slot(560, 420, 30, 40, "4:3"), Slot(560, 420, 610, 40, "4:3"),
      Slot(560, 420, 30, 490, "4:3"), Slot(560, 420, 610, 490, "4:3"),
      Slot(560, 420, 30, 940, "4:3"), Slot(560, 420, 610, 940, "4:3") ],
    FrameSize(1200, 1800, "Frame vertical 4x6 inch @ 300dpi", "portrait"),
    None, None)

  /** `Object.keys(templates)`, in declaration order. */
  const TemplateIds: seq<string> := [HorizontalSingleId, DefaultId]

  /** The `templates` object. */
  const Registry: map<string, Template> := map[HorizontalSingleId := HorizontalSingle, DefaultId := Classic2x3]

  lemma TemplateIdsAreTheKeys()
    ensures |TemplateIds| == |Registry|
    ensures forall id :: id in Registry <==> id in TemplateIds
    ensures forall a, b :: 0 <= a < b < |TemplateIds| ==> TemplateIds[a] != TemplateIds[b]
  {
    assert HorizontalSingleId != DefaultId by { assert HorizontalSingleId[0] != DefaultId[0]; }
    assert Registry.Keys == {HorizontalSingleId, DefaultId};
  }

  // ---------------------------------------------------------------------
  // Data invariants
  // ---------------------------------------------------------------------

  predicate SlotInside(s: Slot, width: nat, height: nat) {
    s.left + s.width <= width && s.top + s.height <= height
  }

  /** Two rectangles that share no pixel. */
  predicate SlotsDisjoint(a: Slot, b: Slot) {
    || a.left + a.width <= b.left || b.left + b.width <= a.left
    || a.top + a.height <= b.top || b.top + b.height <= a.top
  }

  /** What the compositor relies on: one slot per selected photo, no more
      selected than captured, every slot inside the strip, slots pairwise
      disjoint, and the frame sized like the strip. */
  predicate WellFormedTemplate(t: Template) {
    && |t.layout| == t.selectCount
    && 1 <= t.selectCount <= t.captureCount
    && (forall k :: 0 <= k < |t.layout| ==> SlotInside(t.layout[k], t.stripWidth, t.stripHeight))
    && (forall a, b :: 0 <= a < b < |t.layout| ==> SlotsDisjoint(t.layout[a], t.layout[b]))
    && t.frameSize.width == t.stripWidth && t.frameSize.height == t.stripHeight
  }

  lemma {:induction false} RegistryWellFormed()
    ensures forall id :: id in Registry ==> WellFormedTemplate(Registry[id])
  {
    assert WellFormedTemplate(HorizontalSingle);
    var l := Classic2x3.layout;
    forall a, b | 0 <= a < b < 6 ensures SlotsDisjoint(l[a], l[b]) {
    }
    assert WellFormedTemplate(Classic2x3);
  }

  // ---------------------------------------------------------------------
  // Lookup and validation
  // ---------------------------------------------------------------------

  /** `getTemplate`: the named template, or `classic-2x3` for an unknown id. */
  function GetTemplate(id: string): (t: Template)
    ensures t == HorizontalSingle || t == Classic2x3
  {
    if id in Registry then Registry[id] else Registry[DefaultId]
  }

  /** Whatever the id, the template returned satisfies the data invariants. */
  lemma GetTemplateWellFormed(id: string)
    ensures WellFormedTemplate(GetTemplate(id))
  {
    RegistryWellFormed();
    assert GetTemplate(id) in Registry.Values;
  }

  lemma GetTemplateFallsBack(id: string)
    ensures id in Registry ==> GetTemplate(id) == Registry[id]
    ensures id !in Registry ==> GetTemplate(id) == Classic2x3
    ensures GetTemplate(HorizontalSingleId).selectCount == 1
    ensures GetTemplate(DefaultId).selectCount == 6
  {
  }

  /** `validatePhotosForTemplate`. */
  function ValidatePhotosForTemplate(id: string, photoCount: int): bool {
    photoCount >= GetTemplate(id).selectCount
  }

  /** Enough photos means at least the resolved template's `selectCount`, and
      an unknown id is checked against the default's six. */
  lemma ValidateAgainstSelectCount(id: string, photoCount: int)
    ensures ValidatePhotosForTemplate(id, photoCount) <==>
            photoCount >= (if id == HorizontalSingleId then 1 else 6)
  {
  }

  // ---------------------------------------------------------------------
  // Summaries
  // ---------------------------------------------------------------------

  /** One entry of `getAllTemplates()`: no layout, no strip size, no frame flag. */
  datatype TemplateSummary = TemplateSummary(
    id: string, name: string, description: string,
    captureCount: nat, selectCount: nat, frameSize: FrameSize)

  function Summarize(id: string, t: Template): TemplateSummary {
    TemplateSummary(id, t.name, t.description, t.captureCount, t.selectCount, t.frameSize)
  }

  /** `getAllTemplates`: one summary per key, in key order. */
  function GetAllTemplates(): (r: seq<TemplateSummary>)
    ensures |r| == |TemplateIds|
  {
    seq(|TemplateIds|, k requires 0 <= k < |TemplateIds| =>
      Summarize(TemplateIds[k], Registry[TemplateIds[k]]))
  }

  /** Each summary carries its key and agrees with what `getTemplate` resolves
      for that key; every key appears once. */
  lemma SummariesAgreeWithLookup()
    ensures forall k :: 0 <= k < |GetAllTemplates()| ==>
              var s := GetAllTemplates()[k];
              var t := GetTemplate(s.id);
              && s.id == TemplateIds[k]
              && s.name == t.name && s.description == t.description
              && s.captureCount == t.captureCount && s.selectCount == t.selectCount
              && s.frameSize == t.frameSize
    ensures forall id :: id in Registry <==> (exists k :: 0 <= k < |GetAllTemplates()| && GetAllTemplates()[k].id == id)
  {
    TemplateIdsAreTheKeys();
    var r := GetAllTemplates();
    assert r[0] == Summarize(HorizontalSingleId, Registry[HorizontalSingleId]);
    assert r[1] == Summarize(DefaultId, Registry[DefaultId]);
    assert Registry.Keys == {HorizontalSingleId, DefaultId};
    forall id | id in Registry
      ensures exists k :: 0 <= k < |r| && r[k].id == id
    {
      if id == HorizontalSingleId { assert r[0].id == id; } else { assert r[1].id == id; }
    }
  }

  // ---------------------------------------------------------------------
  // Aspect ratios
  // ---------------------------------------------------------------------

  /** A JavaScript number the parser can produce: a finite rational, or NaN / Infinity. */
  datatype AspectValue = Finite(value: real) | NonFinite

  /** `Number(part)` for a part made of decimal digits (the empty part is 0);
      every other part is read as NaN. */
  function NumberOf(part: string): Option<nat> {
    if AllDecimalDigits(part) then Some(ParseDecimal(part)) else None
  }

  /** `getAspectRatioValue`: 1 for a missing or empty ratio, otherwise w / h
      from "w:h", exact. */
  function GetAspectRatioValue(aspectRatio: Option<string>): AspectValue {
    if aspectRatio.None? || aspectRatio.value == "" then Finite(1.0)
    else
      var parts := Split(aspectRatio.value, ':');
      var w := NumberOf(parts[0]);
      var h := if |parts| >= 2 then NumberOf(parts[1]) else None;
      if w.None? || h.None? || h.value == 0 then NonFinite
      else Finite(w.value as real / h.value as real)
  }

  /** Reading back "w:h" written in decimal gives w / h. */
  lemma AspectRatioOfDecimalPair(w: nat, h: nat)
    requires h > 0
    ensures GetAspectRatioValue(Some(ToDecimal(w) + ":" + ToDecimal(h))) == Finite(w as real / h as real)
  {
    var a, b := ToDecimal(w), ToDecimal(h);
    assert forall k :: 0 <= k < |a| ==> a[k] != ':';
    assert forall k :: 0 <= k < |b| ==> b[k] != ':';
    SplitAtSeparator(a, ':', b);
    SplitWithoutSeparator(b, ':');
    ParseDecimalOfToDecimal(w);
    ParseDecimalOfToDecimal(h);
  }

  lemma MissingAspectRatioIsOne()
    ensures GetAspectRatioValue(None) == Finite(1.0)
    ensures GetAspectRatioValue(Some("")) == Finite(1.0)
  {
  }

  /** Every `classic-2x3` slot has exactly the proportions of its declared 4:3
      (560·3 = 420·4). */
  lemma ClassicSlotsMatchDeclaredRatio()
    ensures forall k :: 0 <= k < |Classic2x3.layout| ==>
              var s := Classic2x3.layout[k];
              GetAspectRatioValue(Some(s.aspectRatio)) == Finite(s.width as real / s.height as real)
  {
    AspectRatioOfDecimalPair(4, 3);
    assert ToDecimal(4) + ":" + ToDecimal(3) == "4:3";
  }

  /** The `horizontal-single` slot is 1700 × 1100, which is not the 16:9 its
      label declares (the label is never read by the compositor). */
  lemma HorizontalSlotDiffersFromLabel()
    ensures var s := HorizontalSingle.layout[0];
            GetAspectRatioValue(Some(s.aspectRatio)) == Finite(16.0 / 9.0) &&
            s.width as real / s.height as real != 16.0 / 9.0
  {
    AspectRatioOfDecimalPair(16, 9);
    assert ToDecimal(16) + ":" + ToDecimal(9) == "16:9";
  }
}
