/** The string logic of the asset listing routes (server/routes/assets.js):
    which directory entries are listed, and the id, display name, URL and
    random colour derived from each.  Reading the directory is an input
    (None when it cannot be read); `Math.random()` is a sequence of draws. */
module Assets {
  import opened Common
  import opened ChromaKey
  import Templates

  /** A directory entry's name: never holds a '/'. */
  type FileName = s: string | '/' !in s

  // ---------------------------------------------------------------------
  // Extensions, stems and ids
  // ---------------------------------------------------------------------

  /** The position of the last '.' in `s`, if there is one. */
  function LastDot(s: string): (r: Option<nat>)
    ensures r.Some? ==> r.value < |s| && s[r.value] == '.'
    ensures r.Some? ==> forall k :: r.value < k < |s| ==> s[k] != '.'
    ensures r.None? ==> forall k :: 0 <= k < |s| ==> s[k] != '.'
  {
    if s == [] then None
    else if s[|s| - 1] == '.' then Some(|s| - 1)
    else LastDot(s[..|s| - 1])
  }

  /** `path.extname(file)`: from the last '.' to the end, except that a name
      with no dot, a name whose only leading dot is its last (".png"), and ".."
      have no extension. */
  function ExtName(f: FileName): (e: string)
    ensures e == "" || (e[0] == '.' && |e| < |f| && f[|f| - |e|..] == e)
  {
    var d := LastDot(f);
    if d.None? || d.value == 0 || f == ".." then "" else f[d.value..]
  }

  /** `path.basename(file, path.extname(file))`. */
  function Stem(f: FileName): (s: string)
    ensures s + ExtName(f) == f
  {
    f[..|f| - |ExtName(f)|]
  }

  /** `file.replace(/\.[^/.]+$/, "")`: drop a final '.' followed by at least
      one character and no other dot. */
  function Id(f: FileName): (r: string)
    ensures |r| <= |f| && r == f[..|r|]
    ensures r != f ==> |f| - |r| >= 2 && f[|r|] == '.' && forall k :: |r| < k < |f| ==> f[k] != '.'
    ensures r == f ==> forall k :: 0 <= k < |f| - 1 && f[k] == '.' ==> exists j :: k < j < |f| && f[j] == '.'
  {
    var d := LastDot(f);
    if d.Some? && d.value < |f| - 1 then f[..d.value]
    else
      assert forall k :: 0 <= k < |f| - 1 && f[k] == '.' ==> f[|f| - 1] == '.';
      f
  }

  const ImageExtensions: seq<string> := [".png", ".jpg", ".jpeg"]

  /** The filter: the lower-cased extension is one of the three image extensions. */
  predicate IsImageFile(f: FileName) {
    LowerAsciiString(ExtName(f)) in ImageExtensions
  }

  /** For a listed file the id and the stem are the same string. */
  lemma IdIsStemWhenListed(f: FileName)
    requires IsImageFile(f)
    ensures Id(f) == Stem(f)
  {
    var e := ExtName(f);
    assert |LowerAsciiString(e)| >= 4;
    var d := LastDot(f).value;
    assert e == f[d..];
  }

  /** `files.filter(...)`, keeping directory order. */
  function ImageFiles(files: seq<FileName>): seq<FileName> {
    Filter(IsImageFile, files)
  }

  /** The filter keeps exactly the image files, and it distributes over
      concatenation, so listings keep directory order. */
  lemma ImageFilesFilter(files: seq<FileName>, more: seq<FileName>)
    ensures forall f :: f in ImageFiles(files) <==> f in files && IsImageFile(f)
    ensures ImageFiles(files + more) == ImageFiles(files) + ImageFiles(more)
  {
    FilterMembers(IsImageFile, files);
    FilterAppend(IsImageFile, files, more);
  }

  // ---------------------------------------------------------------------
  // Display names
  // ---------------------------------------------------------------------

  /** `.replace(/-/g, ' ').replace(/_/g, ' ')` */
  function Spaced(s: string): (r: string)
    ensures |r| == |s| && '-' !in r && '_' !in r
  {
    seq(|s|, k requires 0 <= k < |s| => if s[k] == '-' || s[k] == '_' then ' ' else s[k])
  }

  /** `word.charAt(0).toUpperCase() + word.slice(1)`; "" stays "". */
  function Capitalize(w: string): (r: string)
    ensures |r| == |w|
  {
    if w == [] then [] else [UpperAscii(w[0])] + w[1..]
  }

  function CapitalizeAll(words: seq<string>): (r: seq<string>)
    ensures |r| == |words|
    ensures forall k :: 0 <= k < |words| ==> r[k] == Capitalize(words[k])
  {
    seq(|words|, k requires 0 <= k < |words| => Capitalize(words[k]))
  }

  /** `.split(' ').map(capitalize).join(' ')` */
  function TitleCase(s: string): string {
    Join(CapitalizeAll(Split(s, ' ')), ' ')
  }

  /** The `name` of a listed file. */
  function DisplayName(f: FileName): string {
    TitleCase(Spaced(Stem(f)))
  }

  lemma CapitalizeKeepsAbsent(w: string, c: char)
    requires c !in w && !('A' <= c <= 'Z')
    ensures c !in Capitalize(w)
  {
  }

  lemma CapitalizeKeepsNoSpace(w: string)
    requires ' ' !in w
    ensures ' ' !in Capitalize(w)
  {
  }

  /** The name never holds a '-' or a '_'. */
  lemma DisplayNameHasNoDashOrUnderscore(f: FileName)
    ensures '-' !in DisplayName(f) && '_' !in DisplayName(f)
  {
    var s := Spaced(Stem(f));
    var words := Split(s, ' ');
    var caps := CapitalizeAll(words);
    SplitAvoids(s, ' ', '-');
    SplitAvoids(s, ' ', '_');
    forall k | 0 <= k < |caps| ensures '-' !in caps[k] && '_' !in caps[k] {
      CapitalizeKeepsAbsent(words[k], '-');
      CapitalizeKeepsAbsent(words[k], '_');
    }
    JoinAvoids(caps, ' ', '-');
    JoinAvoids(caps, ' ', '_');
  }

  /** With ASCII case mapping the name is exactly as long as the stem. */
  lemma DisplayNameLength(f: FileName)
    ensures |DisplayName(f)| == |Stem(f)|
  {
    var s := Spaced(Stem(f));
    var words := Split(s, ' ');
    JoinSameLength(CapitalizeAll(words), words, ' ');
    JoinSplit(s, ' ');
  }

  /** The words of the name are the capitalised words of the spaced stem. */
  lemma {:induction false} TitleCaseWords(s: string)
    ensures Split(TitleCase(s), ' ') == CapitalizeAll(Split(s, ' '))
  {
    var words := Split(s, ' ');
    var caps := CapitalizeAll(words);
    forall k | 0 <= k < |caps| ensures ' ' !in caps[k] {
      CapitalizeKeepsNoSpace(words[k]);
    }
    SplitJoin(caps, ' ');
  }

  lemma CapitalizeIdempotent(w: string)
    ensures Capitalize(Capitalize(w)) == Capitalize(w)
  {
  }

  /** Capitalising the words of an already capitalised name changes nothing. */
  lemma TitleCaseIdempotent(s: string)
    ensures TitleCase(TitleCase(s)) == TitleCase(s)
  {
    var caps := CapitalizeAll(Split(s, ' '));
    TitleCaseWords(s);
    forall k | 0 <= k < |caps| ensures Capitalize(caps[k]) == caps[k] {
      CapitalizeIdempotent(Split(s, ' ')[k]);
    }
    assert CapitalizeAll(caps) == caps;
  }

  // ---------------------------------------------------------------------
  // Colours
  // ---------------------------------------------------------------------

  /** `Math.floor(Math.random() * 16777215)` is below this. */
  const ColourDraws: nat := 16777215

  /** `'#' + n.toString(16)`: lower case and not zero-padded. */
  function ColourOf(n: nat): (c: string)
    ensures |c| >= 2 && c[0] == '#' && AllHexDigits(c[1..])
    ensures n < ColourDraws ==> |c| <= 7
  {
    ToLowerHexLength(n, 6);
    assert Pow(16, 6) == 16777216;
    "#" + ToLowerHex(n)
  }

  /** A draw below 0x100000 has at most five digits, which `hexToRgb` on the
      client does not accept, so the background shows as white. */
  lemma ShortColourReadsAsWhite(n: nat)
    requires n < 0x100000
    ensures HexToRgb(ColourOf(n)) == White
  {
    ToLowerHexLength(n, 5);
    assert Pow(16, 5) == 0x100000;
    var c := ColourOf(n);
    assert !IsHexDigit(c[0]);
  }

  lemma ParseHexSix(s: string)
    requires |s| == 6 && AllHexDigits(s)
    ensures ParseHex(s) == (HexPair(s[0], s[1]) * 256 + HexPair(s[2], s[3])) * 256 + HexPair(s[4], s[5])
  {
    var v := seq(6, k requires 0 <= k < 6 => HexValue(s[k]));
    assert s[..1][..0] == [];
    assert ParseHex(s[..1]) == v[0];
    assert s[..2][..1] == s[..1];
    assert ParseHex(s[..2]) == v[0] * 16 + v[1];
    assert s[..3][..2] == s[..2];
    assert ParseHex(s[..3]) == (v[0] * 16 + v[1]) * 16 + v[2];
    assert s[..4][..3] == s[..3];
    assert ParseHex(s[..4]) == ((v[0] * 16 + v[1]) * 16 + v[2]) * 16 + v[3];
    assert s[..5][..4] == s[..4];
    assert ParseHex(s[..5]) == (((v[0] * 16 + v[1]) * 16 + v[2]) * 16 + v[3]) * 16 + v[4];
    assert s[..6] == s;
  }

  /** A six-digit draw reads back on the client as its three bytes. */
  lemma SixDigitColourDecodes(n: nat)
    requires 0x100000 <= n < ColourDraws
    ensures HexToRgb(ColourOf(n)) == Rgb(n / 256 / 256, n / 256 % 256, n % 256)
  {
    var d := ToLowerHex(n);
    ToLowerHexLength(n, 5);
    assert Pow(16, 5) == 0x100000;
    ToLowerHexLength(n, 6);
    assert Pow(16, 6) == 16777216;
    assert |d| == 6;
    ParseHexOfToLowerHex(n);
    ParseHexSix(d);
    var r: nat, g: nat, b: nat := HexPair(d[0], d[1]), HexPair(d[2], d[3]), HexPair(d[4], d[5]);
    DivModUnique(n, 256, r * 256 + g, b);
    DivModUnique(n / 256, 256, r, g);
    assert ColourOf(n)[1..] == d;
  }

  // ---------------------------------------------------------------------
  // The handlers
  // ---------------------------------------------------------------------

  datatype FrameEntry = FrameEntry(id: string, name: string, url: string)
  datatype BackgroundEntry = BackgroundEntry(id: string, name: string, url: string, color: string)

  /** A handler's answer: the list, or a 500 with a fixed message. */
  datatype Listing<T> = Listed(entries: seq<T>) | Failed(error: string)

  function FrameEntryOf(f: FileName): FrameEntry {
    FrameEntry(Id(f), DisplayName(f), "/static/frames/" + f)
  }

  function BackgroundEntryOf(f: FileName, draw: nat): BackgroundEntry {
    BackgroundEntry(Id(f), DisplayName(f), "/static/backgrounds/" + f, ColourOf(draw))
  }

  /** `GET /frames` over the directory's entries. */
  function Frames(dir: Option<seq<FileName>>): (r: Listing<FrameEntry>)
    ensures dir.None? <==> r.Failed?
    ensures r.Listed? ==> |r.entries| == |ImageFiles(dir.value)|
  {
    if dir.None? then Failed("Failed to read frames")
    else
      var files := ImageFiles(dir.value);
      Listed(seq(|files|, k requires 0 <= k < |files| => FrameEntryOf(files[k])))
  }

  /** `GET /backgrounds`, one random draw per listed file. */
  function Backgrounds(dir: Option<seq<FileName>>, draws: seq<nat>): (r: Listing<BackgroundEntry>)
    requires dir.Some? ==> |draws| == |ImageFiles(dir.value)|
    ensures dir.None? <==> r.Failed?
    ensures r.Listed? ==> |r.entries| == |draws|
  {
    if dir.None? then Failed("Failed to read backgrounds")
    else
      var files := ImageFiles(dir.value);
      Listed(seq(|files|, k requires 0 <= k < |files| => BackgroundEntryOf(files[k], draws[k])))
  }

  /** `GET /templates`: the template summaries, unchanged. */
  function TemplatesListing(): (r: Listing<Templates.TemplateSummary>)
    ensures r == Listed(Templates.GetAllTemplates()) && |r.entries| == 2
  {
    Listed(Templates.GetAllTemplates())
  }

  /** What `GET /templates` sends: one entry per registry template, in key
      order, each agreeing with what `getTemplate` resolves for its id. */
  lemma TemplatesListingDescribesRegistry()
    ensures var es := TemplatesListing().entries;
            && |es| == |Templates.TemplateIds|
            && (forall k :: 0 <= k < |es| ==>
                  var t := Templates.GetTemplate(es[k].id);
                  && es[k].id == Templates.TemplateIds[k]
                  && es[k].name == t.name && es[k].description == t.description
                  && es[k].captureCount == t.captureCount && es[k].selectCount == t.selectCount
                  && es[k].frameSize == t.frameSize)
            && (forall id :: id in Templates.Registry <==> (exists k :: 0 <= k < |es| && es[k].id == id))
  {
    Templates.SummariesAgreeWithLookup();
  }

  /** Frames and backgrounds list the same files in the same order with the
      same id and name; they differ only in URL prefix and colour.  Each entry's
      id and name both come from the file's stem. */
  lemma ListingsAgree(files: seq<FileName>, draws: seq<nat>)
    requires |draws| == |ImageFiles(files)|
    ensures var fr := Frames(Some(files)).entries;
            var bg := Backgrounds(Some(files), draws).entries;
            var listed := ImageFiles(files);
            && |fr| == |bg| == |listed|
            && forall k :: 0 <= k < |listed| ==>
                 && fr[k].id == bg[k].id == Stem(listed[k])
                 && fr[k].name == bg[k].name == DisplayName(listed[k])
                 && fr[k].url == "/static/frames/" + listed[k]
                 && bg[k].url == "/static/backgrounds/" + listed[k]
                 && bg[k].color == ColourOf(draws[k])
  {
    var listed := ImageFiles(files);
    ImageFilesFilter(files, []);
    forall k | 0 <= k < |listed| ensures Id(listed[k]) == Stem(listed[k]) {
      assert listed[k] in listed;
      IdIsStemWhenListed(listed[k]);
    }
  }
}
