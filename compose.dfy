/** The decision logic of `processPhotos` (server/controllers/processController.js):
    request validation, data-URL prefix stripping, the placement plan built
    one slot at a time, the logo and frame overlays with their gating rules,
    and the filename, URL and result record.  `sharp` and `QRCode` are
    uninterpreted: an image is a term that records how it was made, and its
    only computed property is its size.  The file system, the clock and the
    outcome of decoding, writing and QR encoding come in as an `Env`. */
module Compose {
  import opened Common
  import opened Templates

  // ---------------------------------------------------------------------
  // Images as terms
  // ---------------------------------------------------------------------

  datatype Dim = Dim(width: nat, height: nat)

  /** Where an input buffer came from. */
  datatype Origin =
    | Payload(base64: string)   // a photo or logo sent as base64
    | PublicFile(path: string)  // a logo read from `public/<path>`
    | FramePng(name: string)    // `public/frames/<name>.png`

  datatype Fit = CoverFit | ContainFit | FillFit

  datatype Image =
    | Blank(size: Dim)                                  // `sharp({create: …})`, white
    | Source(origin: Origin, size: Dim)                 // a decoded input
    | Resized(fit: Fit, src: Image, size: Dim)          // `.resize(w, h, {fit})`
    | Composite(base: Image, layers: seq<Layer>)        // `.composite([...])`

  /** One entry of a `composite` array: at an offset, or blended over the whole base. */
  datatype Layer = Placed(img: Image, left: nat, top: nat) | Over(img: Image)

  function Size(img: Image): Dim {
    match img
    case Blank(d) => d
    case Source(_, d) => d
    case Resized(_, _, d) => d
    case Composite(base, _) => Size(base)
  }

  /** The layers stacked on the bottom image, lowest first. */
  function Stack(img: Image): seq<Layer> {
    match img
    case Composite(base, layers) => Stack(base) + layers
    case _ => []
  }

  /** The image at the bottom of the stack. */
  function Bottom(img: Image): Image {
    match img
    case Composite(base, _) => Bottom(base)
    case _ => img
  }

  /** `sharp` refuses to composite an input larger than the base. */
  predicate Fits(l: Layer, base: Dim) {
    Size(l.img).width <= base.width && Size(l.img).height <= base.height
  }

  predicate AllFit(layers: seq<Layer>, base: Dim) {
    forall k :: 0 <= k < |layers| ==> Fits(layers[k], base)
  }

  /** Composite `layers` onto `img`, or leave it alone when there are none. */
  function Layered(img: Image, layers: seq<Layer>): (r: Image)
    ensures Size(r) == Size(img) && Bottom(r) == Bottom(img)
    ensures Stack(r) == Stack(img) + layers
  {
    if layers == [] then img else Composite(img, layers)
  }

  // ---------------------------------------------------------------------
  // The world the controller runs in
  // ---------------------------------------------------------------------

  /** What the image library and the file system can read. */
  datatype Files = Files(
    /** base64 payloads that decode to an image, with the decoded size */
    images: map<string, Dim>,
    /** paths under `public/` that exist; None when the file is not an image */
    publicFiles: map<string, Option<Dim>>,
    /** frame names whose `frames/<name>.png` exists; None when it is not an image */
    frameFiles: map<string, Option<Dim>>)

  datatype Env = Env(
    /** `Date.now()` */
    timestamp: nat,
    files: Files,
    /** whether writing the output JPEG succeeds */
    writeOk: bool,
    /** whether `QRCode.toDataURL` succeeds */
    qrOk: bool)

  /** What `sharp(buffer)` decodes a buffer of this origin to, if anything. */
  function Decode(o: Origin, fs: Files): (r: Option<Image>)
    ensures r.Some? ==> r.value.Source? && r.value.origin == o
  {
    match o
    case Payload(b) => if b in fs.images then Some(Source(o, fs.images[b])) else None
    case PublicFile(p) =>
      if p in fs.publicFiles && fs.publicFiles[p].Some? then Some(Source(o, fs.publicFiles[p].value)) else None
    case FramePng(n) =>
      if n in fs.frameFiles && fs.frameFiles[n].Some? then Some(Source(o, fs.frameFiles[n].value)) else None
  }

  // ---------------------------------------------------------------------
  // Requests and responses
  // ---------------------------------------------------------------------

  /** One element of `photos`: only strings have `replace`. */
  datatype Item = Str(s: string) | NotString

  /** The `photos` field: absent or falsy, some other non-array value, or an array. */
  datatype PhotosField = Missing | NotArray | Items(items: seq<Item>)

  /** `req.body`; a None string field is `undefined`.  (`background` is only logged.) */
  datatype Request = Request(photos: PhotosField, frame: Option<string>,
                             template: Option<string>, logo: Option<string>)

  /** `QRCode.toDataURL(text)`, uninterpreted. */
  datatype QrCode = QrCode(text: string)

  datatype Response =
    | BadRequest(error: string)                           // status 400
    | ServerError(error: string)                          // status 500
    | Success(photostrip: string, photostripUrl: string, qrCode: Option<QrCode>,
              timestamp: nat, templateId: string, templateName: string,
              /** what was written to the output file */
              saved: Image)

  const NotAnArrayMessage: string := "Photos harus berupa array"
  const FailureMessage: string := "Gagal memproses foto"
  const Host: string := "http://localhost:3001"
  const OutputsRoute: string := "/static/outputs/"

  /** A JavaScript string is truthy unless it is missing or empty. */
  predicate Truthy(s: Option<string>) {
    s.Some? && s.value != ""
  }

  // ---------------------------------------------------------------------
  // Validation and buffers
  // ---------------------------------------------------------------------

  /** `photos.length < template.photoCount`; comparing with `undefined` is false. */
  predicate RejectsCount(length: nat, photoCount: Option<nat>) {
    photoCount.Some? && length < photoCount.value
  }

  function CountMessage(name: string, expected: nat, got: nat): string {
    "Template " + name + " memerlukan " + ToDecimal(expected) + " foto, tetapi hanya "
      + ToDecimal(got) + " foto yang dikirim"
  }

  /** `photos.slice(0, template.photoCount)`; `slice(0, undefined)` keeps everything. */
  function SliceTo(items: seq<Item>, photoCount: Option<nat>): (r: seq<Item>)
    ensures photoCount.None? ==> r == items
    ensures photoCount.Some? ==> |r| == if photoCount.value < |items| then photoCount.value else |items|
  {
    if photoCount.None? || |items| <= photoCount.value then items else items[..photoCount.value]
  }

  predicate IsWordChar(c: char) {
    ('a' <= c <= 'z') || ('A' <= c <= 'Z') || ('0' <= c <= '9') || c == '_'
  }

  /** The length of the longest run of `\w` characters at the start of `s`. */
  function WordRun(s: string): (n: nat)
    ensures n <= |s|
    ensures forall k :: 0 <= k < n ==> IsWordChar(s[k])
    ensures n < |s| ==> !IsWordChar(s[n])
  {
    if s != [] && IsWordChar(s[0]) then 1 + WordRun(s[1..]) else 0
  }

  const DataImagePrefix: string := "data:image/"
  const Base64Marker: string := ";base64,"

  /** `s.replace(/^data:image\/\w+;base64,/, '')`: drop the data-URL header
      when the string starts with one; the result is always a suffix of `s`. */
  function StripDataUrlPrefix(s: string): (r: string)
    ensures |r| <= |s| && r == s[|s| - |r|..]
    ensures !StartsWith(s, DataImagePrefix) ==> r == s
  {
    if StartsWith(s, DataImagePrefix) then
      var rest := s[|DataImagePrefix|..];
      var w := WordRun(rest);
      if w > 0 && StartsWith(rest[w..], Base64Marker) then rest[w + |Base64Marker|..] else s
    else s
  }

  lemma {:induction false} WordRunOfWord(word: string, tail: string)
    requires forall k :: 0 <= k < |word| ==> IsWordChar(word[k])
    requires tail != [] && !IsWordChar(tail[0])
    ensures WordRun(word + tail) == |word|
  {
    if word != [] {
      assert (word + tail)[1..] == word[1..] + tail;
      WordRunOfWord(word[1..], tail);
    }
  }

  /** A data URL with a word-character subtype loses exactly its header. */
  lemma StripsDataUrlHeader(subtype: string, payload: string)
    requires |subtype| > 0 && forall k :: 0 <= k < |subtype| ==> IsWordChar(subtype[k])
    ensures StripDataUrlPrefix(DataImagePrefix + subtype + Base64Marker + payload) == payload
  {
    var s := DataImagePrefix + subtype + Base64Marker + payload;
    assert s[..|DataImagePrefix|] == DataImagePrefix;
    var rest := s[|DataImagePrefix|..];
    assert rest == subtype + (Base64Marker + payload);
    WordRunOfWord(subtype, Base64Marker + payload);
    assert rest[|subtype|..] == Base64Marker + payload;
    assert (Base64Marker + payload)[..|Base64Marker|] == Base64Marker;
    assert rest[|subtype| + |Base64Marker|..] == payload;
  }

  /** `photos.map(...)` up to `Buffer.from`: the stripped string of every
      element, or None when an element is not a string (its `replace` throws). */
  function Payloads(items: seq<Item>): (r: Option<seq<string>>)
    ensures r.Some? <==> forall k :: 0 <= k < |items| ==> items[k].Str?
    ensures r.Some? ==> |r.value| == |items|
    ensures r.Some? ==> forall k :: 0 <= k < |items| ==> r.value[k] == StripDataUrlPrefix(items[k].s)
  {
    if forall k :: 0 <= k < |items| ==> items[k].Str? then
      Some(seq(|items|, k requires 0 <= k < |items| => StripDataUrlPrefix(items[k].s)))
    else None
  }

  // ---------------------------------------------------------------------
  // The placement plan (the loop at lines 82-105)
  // ---------------------------------------------------------------------

  /** Whether every one of the first `n` iterations finds its slot and a decodable buffer. */
  predicate PlanOk(buffers: seq<string>, layout: seq<Slot>, n: nat, fs: Files) {
    && n <= |layout| && n <= |buffers|
    && forall k :: 0 <= k < n ==> buffers[k] in fs.images
  }

  /** Photo `k` cover-resized to slot `k` and placed at the slot's corner. */
  function Placement(buffer: string, slot: Slot, fs: Files): (l: Layer)
    requires buffer in fs.images
    ensures l.Placed? && l.left == slot.left && l.top == slot.top
    ensures Size(l.img) == Dim(slot.width, slot.height)
  {
    Placed(Resized(CoverFit, Source(Payload(buffer), fs.images[buffer]), Dim(slot.width, slot.height)),
           slot.left, slot.top)
  }

  /** The `compositeArray` the loop builds for `n` slots, or None when an
      iteration throws (no slot, no buffer, or a buffer `sharp` cannot decode). */
  function PhotoPlan(buffers: seq<string>, layout: seq<Slot>, n: nat, fs: Files): (r: Option<seq<Layer>>)
    ensures r.Some? <==> PlanOk(buffers, layout, n, fs)
    ensures r.Some? ==> |r.value| == n
  {
    if PlanOk(buffers, layout, n, fs) then
      Some(seq(n, k requires 0 <= k < n && PlanOk(buffers, layout, n, fs) =>
        Placement(buffers[k], layout[k], fs)))
    else None
  }

  /** The loop itself: one `push` per slot, in slot order. */
  method BuildPlan(buffers: seq<string>, layout: seq<Slot>, n: nat, fs: Files) returns (plan: Option<seq<Layer>>)
    ensures plan == PhotoPlan(buffers, layout, n, fs)
  {
    var compositeArray: seq<Layer> := [];
    var i := 0;
    while i < n
      invariant 0 <= i <= n
      invariant i <= |layout| && i <= |buffers|
      invariant forall k :: 0 <= k < i ==> buffers[k] in fs.images
      invariant |compositeArray| == i
      invariant forall k :: 0 <= k < i ==> compositeArray[k] == Placement(buffers[k], layout[k], fs)
    {
      if i >= |layout| || i >= |buffers| || buffers[i] !in fs.images {
        assert !PlanOk(buffers, layout, n, fs);
        return None;
      }
      compositeArray := compositeArray + [Placement(buffers[i], layout[i], fs)];
      i := i + 1;
    }
    assert compositeArray == PhotoPlan(buffers, layout, n, fs).value;
    plan := Some(compositeArray);
  }

  // ---------------------------------------------------------------------
  // Overlays
  // ---------------------------------------------------------------------

  /** `logoBuffer`: set from the data URL, or from the file when it exists. */
  function LogoBuffer(logo: string, fs: Files): Option<Origin> {
    if StartsWith(logo, "data:image") then Some(Payload(StripDataUrlPrefix(logo)))
    else if logo in fs.publicFiles then Some(PublicFile(logo))
    else None
  }

  /** The logo step's contribution: nothing unless the template has a
      `logoPosition` and a logo was sent, and nothing when anything inside the
      step fails, since its errors are swallowed. */
  function LogoLayers(t: Template, logo: Option<string>, fs: Files, base: Dim): (r: seq<Layer>)
    ensures |r| <= 1
    ensures r != [] ==> t.logoPosition.Some? && Truthy(logo)
  {
    if t.logoPosition.None? || !Truthy(logo) then []
    else
      var p := t.logoPosition.value;
      var buffer := LogoBuffer(logo.value, fs);
      if buffer.None? then []
      else
        var decoded := Decode(buffer.value, fs);
        if decoded.None? then []
        else
          var layer := Placed(Resized(ContainFit, decoded.value, Dim(p.width, p.height)), p.left, p.top);
          if Fits(layer, base) then [layer] else []
  }

  /** The frame step's contribution: nothing unless a frame was named, the
      template has frames and the file exists; the frame is stretched to the
      strip; failures are swallowed. */
  function FrameLayers(t: Template, frame: Option<string>, fs: Files, base: Dim): (r: seq<Layer>)
    ensures |r| <= 1
    ensures r != [] ==> Truthy(frame) && t.hasFrame && frame.value in fs.frameFiles
  {
    if !Truthy(frame) || !t.hasFrame || frame.value !in fs.frameFiles then []
    else
      var decoded := Decode(FramePng(frame.value), fs);
      if decoded.None? then []
      else
        var layer := Over(Resized(FillFit, decoded.value, Dim(t.stripWidth, t.stripHeight)));
        if Fits(layer, base) then [layer] else []
  }

  // ---------------------------------------------------------------------
  // Names
  // ---------------------------------------------------------------------

  function OutputFilename(timestamp: nat): string {
    "photostrip-" + ToDecimal(timestamp) + ".jpg"
  }

  function PhotostripPath(filename: string): string {
    OutputsRoute + filename
  }

  function PhotostripUrl(filename: string): string {
    Host + OutputsRoute + filename
  }

  /** The public URL is the host followed by the relative path. */
  lemma UrlIsHostPlusPath(timestamp: nat)
    ensures PhotostripUrl(OutputFilename(timestamp)) == Host + PhotostripPath(OutputFilename(timestamp))
    ensures StartsWith(PhotostripPath(OutputFilename(timestamp)), "/static/outputs/photostrip-")
    ensures EndsWith(OutputFilename(timestamp), ".jpg")
  {
    var f := OutputFilename(timestamp);
    assert (OutputsRoute + f)[..27] == "/static/outputs/photostrip-";
  }

  /** Two requests handled at different milliseconds write different files. */
  lemma {:induction false} DistinctTimestampsDistinctFiles(a: nat, b: nat)
    requires a != b
    ensures OutputFilename(a) != OutputFilename(b)
  {
    ToDecimalInjective(a, b);
    FilenameCarriesTimestamp(a);
    FilenameCarriesTimestamp(b);
  }

  lemma FilenameCarriesTimestamp(t: nat)
    ensures |OutputFilename(t)| == |ToDecimal(t)| + 15
    ensures OutputFilename(t)[11..|OutputFilename(t)| - 4] == ToDecimal(t)
  {
  }

  // ---------------------------------------------------------------------
  // The whole handler
  // ---------------------------------------------------------------------

  /** The template id after destructuring with its default. */
  function RequestedId(req: Request): string {
    if req.template.Some? then req.template.value else DefaultId
  }

  /** What the handler answers and writes, for a template already looked up. */
  function ProcessFor(req: Request, env: Env, templateId: string, t: Template): Response {
    if !req.photos.Items? then BadRequest(NotAnArrayMessage)
    else
      var items := req.photos.items;
      if RejectsCount(|items|, t.photoCount) then
        BadRequest(CountMessage(t.name, t.photoCount.value, |items|))
      else
        var buffers := Payloads(SliceTo(items, t.photoCount));
        if buffers.None? then ServerError(FailureMessage)
        else
          var canvas := Blank(Dim(t.stripWidth, t.stripHeight));
          var plan := PhotoPlan(buffers.value, t.layout, t.selectCount, env.files);
          if plan.None? || !AllFit(plan.value, Size(canvas)) then ServerError(FailureMessage)
          else
            var withPhotos := Composite(canvas, plan.value);
            var withLogo := Layered(withPhotos, LogoLayers(t, req.logo, env.files, Size(withPhotos)));
            var final := Layered(withLogo, FrameLayers(t, req.frame, env.files, Size(withLogo)));
            if !env.writeOk then ServerError(FailureMessage)
            else
              var filename := OutputFilename(env.timestamp);
              var url := PhotostripUrl(filename);
              Success(PhotostripPath(filename), url, if env.qrOk then Some(QrCode(url)) else None,
                      env.timestamp, templateId, t.name, final)
  }

  function Process(req: Request, env: Env): Response {
    ProcessFor(req, env, RequestedId(req), GetTemplate(RequestedId(req)))
  }

  /** `processPhotos`, step by step. */
  method ProcessPhotos(req: Request, env: Env) returns (resp: Response)
    ensures resp == Process(req, env)
  {
    var templateId := RequestedId(req);
    var template := GetTemplate(templateId);
    resp := ProcessWithTemplate(req, env, templateId, template);
  }

  method ProcessWithTemplate(req: Request, env: Env, templateId: string, template: Template)
    returns (resp: Response)
    ensures resp == ProcessFor(req, env, templateId, template)
  {
    if !req.photos.Items? {
      return BadRequest(NotAnArrayMessage);
    }
    var photos := req.photos.items;
    if RejectsCount(|photos|, template.photoCount) {
      return BadRequest(CountMessage(template.name, template.photoCount.value, |photos|));
    }
    var photoBuffers := Payloads(SliceTo(photos, template.photoCount));
    if photoBuffers.None? {
      return ServerError(FailureMessage);
    }
    var canvas := Blank(Dim(template.stripWidth, template.stripHeight));
    var compositeArray := BuildPlan(photoBuffers.value, template.layout, template.selectCount, env.files);
    if compositeArray.None? || !AllFit(compositeArray.value, Size(canvas)) {
      return ServerError(FailureMessage);
    }
    var finalImage := Composite(canvas, compositeArray.value);

    if template.logoPosition.Some? && Truthy(req.logo) {
      var p := template.logoPosition.value;
      var logoBuffer := LogoBuffer(req.logo.value, env.files);
      if logoBuffer.Some? {
        var decoded := Decode(logoBuffer.value, env.files);
        if decoded.Some? {
          var resizedLogo := Resized(ContainFit, decoded.value, Dim(p.width, p.height));
          var layer := Placed(resizedLogo, p.left, p.top);
          if Fits(layer, Size(finalImage)) {
            finalImage := Composite(finalImage, [layer]);
          }
        }
      }
    }

    if Truthy(req.frame) && template.hasFrame {
      if req.frame.value in env.files.frameFiles {
        var decoded := Decode(FramePng(req.frame.value), env.files);
        if decoded.Some? {
          var frameBuffer := Resized(FillFit, decoded.value, Dim(template.stripWidth, template.stripHeight));
          var layer := Over(frameBuffer);
          if Fits(layer, Size(finalImage)) {
            finalImage := Composite(finalImage, [layer]);
          }
        }
      }
    }

    if !env.writeOk {
      return ServerError(FailureMessage);
    }
    var outputFilename := OutputFilename(env.timestamp);
    var photostripUrl := PhotostripUrl(outputFilename);
    var qrCodeDataUrl: Option<QrCode> := None;
    if env.qrOk {
      qrCodeDataUrl := Some(QrCode(photostripUrl));
    }
    resp := Success(PhotostripPath(outputFilename), photostripUrl, qrCodeDataUrl,
                    env.timestamp, templateId, template.name, finalImage);
  }

  // ---------------------------------------------------------------------
  // Properties of the handler
  // ---------------------------------------------------------------------

  /** The only 400 is a missing or non-array `photos`: the count guard reads
      `photoCount`, which no template has, so it never rejects. */
  lemma BadRequestOnlyForNonArray(req: Request, env: Env)
    ensures Process(req, env).BadRequest? <==> !req.photos.Items?
    ensures Process(req, env).BadRequest? ==> Process(req, env).error == NotAnArrayMessage
  {
  }

  /** A registry template's slots fit on its canvas, so the composite never
      fails for size. */
  lemma PlanFitsCanvas(buffers: seq<string>, t: Template, fs: Files)
    requires WellFormedTemplate(t)
    requires PlanOk(buffers, t.layout, t.selectCount, fs)
    ensures AllFit(PhotoPlan(buffers, t.layout, t.selectCount, fs).value, Dim(t.stripWidth, t.stripHeight))
  {
    var plan := PhotoPlan(buffers, t.layout, t.selectCount, fs).value;
    forall k | 0 <= k < |plan| ensures Fits(plan[k], Dim(t.stripWidth, t.stripHeight)) {
      assert SlotInside(t.layout[k], t.stripWidth, t.stripHeight);
    }
  }

  /** The handler succeeds exactly when `photos` is an array of strings, at
      least `selectCount` of them, whose first `selectCount` payloads decode,
      and the output file can be written.  QR failure does not matter. */
  lemma SucceedsExactlyWhen(req: Request, env: Env)
    ensures var t := GetTemplate(RequestedId(req));
            Process(req, env).Success? <==>
              && req.photos.Items?
              && (forall k :: 0 <= k < |req.photos.items| ==> req.photos.items[k].Str?)
              && |req.photos.items| >= t.selectCount
              && (forall k :: 0 <= k < t.selectCount ==>
                    StripDataUrlPrefix(req.photos.items[k].s) in env.files.images)
              && env.writeOk
  {
    var t := GetTemplate(RequestedId(req));
    if req.photos.Items? {
      var buffers := Payloads(req.photos.items);
      if buffers.Some? && PlanOk(buffers.value, t.layout, t.selectCount, env.files) {
        GetTemplateWellFormed(RequestedId(req));
        PlanFitsCanvas(buffers.value, t, env.files);
      }
    }
  }

  /** Sending fewer photos than the template has slots is a 500, not a 400. */
  lemma TooFewPhotosIsServerError(req: Request, env: Env)
    requires req.photos.Items?
    requires |req.photos.items| < GetTemplate(RequestedId(req)).selectCount
    ensures Process(req, env).ServerError?
  {
  }

  /** A successful strip is the white canvas of the strip's size with, from
      bottom to top: one cover-resized photo per slot in slot order, then at
      most the logo, then at most the frame. */
  lemma {:induction false} SuccessLayering(req: Request, env: Env)
    requires Process(req, env).Success?
    ensures var t := GetTemplate(RequestedId(req));
            var saved := Process(req, env).saved;
            var stack := Stack(saved);
            var strip := Dim(t.stripWidth, t.stripHeight);
            && Size(saved) == strip
            && Bottom(saved) == Blank(strip)
            && stack == stack[..t.selectCount]
                        + LogoLayers(t, req.logo, env.files, strip)
                        + FrameLayers(t, req.frame, env.files, strip)
            && forall k :: 0 <= k < t.selectCount ==>
                 stack[k] == Placement(StripDataUrlPrefix(req.photos.items[k].s), t.layout[k], env.files)
  {
    var t := GetTemplate(RequestedId(req));
    var buffers := Payloads(req.photos.items).value;
    var plan := PhotoPlan(buffers, t.layout, t.selectCount, env.files).value;
    var strip := Dim(t.stripWidth, t.stripHeight);
    var withPhotos := Composite(Blank(strip), plan);
    assert Stack(withPhotos) == plan;
    assert Bottom(withPhotos) == Blank(strip);
    var logo := LogoLayers(t, req.logo, env.files, strip);
    var frame := FrameLayers(t, req.frame, env.files, strip);
    var stack := Stack(Process(req, env).saved);
    assert stack == plan + logo + frame;
    assert stack[..t.selectCount] == plan;
  }

  /** No template defines `logoPosition`, so the logo step never adds anything. */
  lemma LogoNeverApplied(id: string, logo: Option<string>, fs: Files, base: Dim)
    ensures LogoLayers(GetTemplate(id), logo, fs, base) == []
  {
  }

  /** With a registry template, the frame is layered exactly when one is named,
      and `frames/<name>.png` exists and decodes; it is then stretched to the strip. */
  lemma FrameAppliedExactlyWhen(id: string, frame: Option<string>, fs: Files)
    ensures var t := GetTemplate(id);
            var r := FrameLayers(t, frame, fs, Dim(t.stripWidth, t.stripHeight));
            && (r != [] <==> Truthy(frame) && frame.value in fs.frameFiles && fs.frameFiles[frame.value].Some?)
            && (r != [] ==> r == [Over(Resized(FillFit, Source(FramePng(frame.value), fs.frameFiles[frame.value].value),
                                              Dim(t.stripWidth, t.stripHeight)))])
  {
  }

  /** The record: fixed URLs derived from the timestamp, the requested id
      echoed even when the lookup fell back, the resolved template's name, and
      a QR code exactly when the encoder succeeded. */
  lemma SuccessRecord(req: Request, env: Env)
    requires Process(req, env).Success?
    ensures var r := Process(req, env);
            && r.photostrip == "/static/outputs/photostrip-" + ToDecimal(env.timestamp) + ".jpg"
            && r.photostripUrl == Host + r.photostrip
            && r.timestamp == env.timestamp
            && r.templateId == RequestedId(req)
            && r.templateName == GetTemplate(RequestedId(req)).name
            && (r.qrCode.Some? <==> env.qrOk)
            && (r.qrCode.Some? ==> r.qrCode.value.text == r.photostripUrl)
  {
  }

  /** An unknown id is echoed back while the strip is laid out as, and named, `Classic 2x3`. */
  lemma UnknownIdEchoedWithFallbackName(req: Request, env: Env)
    requires Process(req, env).Success?
    requires RequestedId(req) !in Registry
    ensures Process(req, env).templateId == RequestedId(req)
    ensures Process(req, env).templateName == "Classic 2x3"
    ensures Size(Process(req, env).saved) == Dim(1200, 1800)
  {
    SuccessLayering(req, env);
  }

  /** Whether the QR encoder succeeds changes only the `qrCode` field. */
  lemma QrFailureOnlyDropsCode(req: Request, env: Env)
    requires Process(req, env).Success?
    ensures var r := Process(req, env.(qrOk := false));
            r.Success? && r == Process(req, env).(qrCode := None)
  {
  }
}
