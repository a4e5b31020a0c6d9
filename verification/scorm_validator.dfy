/**
  Validation of an uploaded SCORM package and extraction of its metadata (the `ScormValidator` class).
  The download, the zip container and the XML parser are collaborators: the package arrives as the
  outcome of download-and-unzip, the archive as a map from entry path to bytes, and the XML parser as a
  function from the manifest's bytes to the parsed document (or the message it throws).
*/
module ScormValidator {
  import opened Wrappers
  import opened Json
  import opened JsNumber

  newtype byte = x: int | 0 <= x < 256

  /** Entries of the zip archive, keyed by their full path inside the archive. */
  type Archive = map<string, seq<byte>>

  const ManifestPath := "imsmanifest.xml"

  const FetchFailed := "Failed to fetch SCORM package"
  const MissingManifest := "Missing imsmanifest.xml file"
  const InvalidStructure := "Invalid manifest structure"
  const MissingOrganizations := "Missing organizations section"
  const MissingResources := "Missing resources section"
  const MissingVersion := "Missing SCORM version"
  /** Stand-in for the engine's text of a TypeError raised while reading the parsed document. */
  const TypeErrorMessage := "Cannot read properties of undefined (reading 'manifest')"

  datatype Metadata = Metadata(
    title: Value,
    duration: Option<nat>,
    objectives: Option<seq<Value>>,
    prerequisites: Option<seq<Value>>)

  datatype ValidationResult = ValidationResult(isValid: bool, errors: seq<string>, metadata: Option<Metadata>)

  /** How fetching the package URL and loading it as a zip ended. */
  datatype Download =
    | HttpNotOk                  // the response arrived with a non-2xx status
    | Rejected(message: string)  // fetch, reading the body or unzipping threw
    | Unzipped(archive: Archive)

  /** The XML parser, applied to the manifest's bytes: the parsed document, or the message it throws. */
  type Parser = seq<byte> -> Result<Value, string>

  function Invalid(errors: seq<string>): ValidationResult {
    ValidationResult(false, errors, None)
  }

  // ---------------------------------------------------------------------------------------------
  // Structure checks

  /** The parts of the `manifest` element that the structure checks look at. */
  function Organization(root: Value): Value {
    OptMember(OptMember(root, "organizations"), "organization")
  }

  function Resource(root: Value): Value {
    OptMember(OptMember(root, "resources"), "resource")
  }

  function Version(root: Value): Value {
    OptMember(root, "@_version")
  }

  /** Position of each structural message in the order the checks run. */
  function CheckRank(message: string): nat {
    if message == MissingOrganizations then 0
    else if message == MissingResources then 1
    else if message == MissingVersion then 2
    else 3
  }

  /** The declarative checks on the `manifest` element: every check runs, messages in a fixed order. */
  function StructureErrors(root: Value): (errors: seq<string>)
    ensures |errors| <= 3
    ensures MissingOrganizations in errors <==> !Truthy(Organization(root))
    ensures MissingResources in errors <==> !Truthy(Resource(root))
    ensures MissingVersion in errors <==> !Truthy(Version(root))
    ensures forall i :: 0 <= i < |errors| ==> CheckRank(errors[i]) < 3
    ensures forall i, j :: 0 <= i < j < |errors| ==> CheckRank(errors[i]) < CheckRank(errors[j])
  {
    (if Truthy(Organization(root)) then [] else [MissingOrganizations])
    + (if Truthy(Resource(root)) then [] else [MissingResources])
    + (if Truthy(Version(root)) then [] else [MissingVersion])
  }

  /**
    `validateManifestStructure`: a document without a truthy `manifest` root gets the single message
    `InvalidStructure` and no further check; reading `manifest` of a nullish document throws.
  */
  function ValidateManifestStructure(doc: Value): (r: Result<seq<string>, Thrown>)
    ensures r.Failure? <==> Nullish(doc)
    ensures r.Success? && !Truthy(Member(doc, "manifest")) ==> r.value == [InvalidStructure]
    ensures r.Success? && Truthy(Member(doc, "manifest")) ==> r.value == StructureErrors(Member(doc, "manifest"))
  {
    if Nullish(doc) then Failure(TypeError)
    else
      var root := Member(doc, "manifest");
      if !Truthy(root) then Success([InvalidStructure]) else Success(StructureErrors(root))
  }

  // ---------------------------------------------------------------------------------------------
  // Duration

  predicate PTAt(s: string, i: int) {
    0 <= i && i + 1 < |s| && s[i] == 'P' && s[i + 1] == 'T'
  }

  /** Where the unanchored regular expression starts matching: the first occurrence of `PT`. */
  function FindPT(s: string): (r: Option<nat>)
    ensures r.Some? ==> PTAt(s, r.value) && forall j :: 0 <= j < r.value ==> !PTAt(s, j)
    ensures r.None? ==> forall j :: 0 <= j < |s| ==> !PTAt(s, j)
  {
    if |s| < 2 then None
    else if s[0] == 'P' && s[1] == 'T' then Some(0)
    else
      assert forall j :: 1 <= j ==> (PTAt(s, j) <==> PTAt(s[1..], j - 1));
      match FindPT(s[1..])
      case None => None
      case Some(k) => Some(k + 1)
  }

  /**
    One optional group `(?:(\d+)X)?` of the pattern: it matches when the longest digit run is non-empty
    and followed by the designator; otherwise the group is skipped and nothing is consumed.
  */
  function Group(s: string, designator: char): (r: (nat, string))
    ensures |r.1| <= |s|
  {
    var run := DigitRun(s, 10);
    if 0 < run < |s| && s[run] == designator then (DigitsValue(s[..run], 10), s[run + 1..])
    else (0, s)
  }

  /** Whole minutes of an hours, minutes and seconds triple, seconds rounded up to the next minute. */
  function Minutes(hours: nat, minutes: nat, seconds: nat): nat {
    60 * hours + minutes + CeilDiv(seconds, 60)
  }

  /** `parseDuration`: `PT(?:(\d+)H)?(?:(\d+)M)?(?:(\d+)S)?` matched anywhere in `s`, absent groups 0. */
  function ParseDuration(s: string): (r: nat)
    ensures (forall j :: 0 <= j < |s| ==> !PTAt(s, j)) ==> r == 0
  {
    match FindPT(s)
    case None => 0
    case Some(i) =>
      var (hours, afterHours) := Group(s[i + 2..], 'H');
      var (minutes, afterMinutes) := Group(afterHours, 'M');
      var (seconds, _) := Group(afterMinutes, 'S');
      Minutes(hours, minutes, seconds)
  }

  /** One designator group as written in an ISO 8601 duration: digits then the designator, or nothing. */
  function Component(n: Option<nat>, designator: char): string {
    match n
    case None => ""
    case Some(v) => NatToString(v) + [designator]
  }

  /** The time-only designator format `PTnHnMnS` of ISO 8601, each component optional. */
  function DurationString(hours: Option<nat>, minutes: Option<nat>, seconds: Option<nat>): string {
    "PT" + Component(hours, 'H') + Component(minutes, 'M') + Component(seconds, 'S')
  }

  /** Whether the group `(?:(\d+)X)?` for designator `X` matches at the start of `s`. */
  predicate GroupMatches(s: string, designator: char) {
    var run := DigitRun(s, 10);
    0 < run < |s| && s[run] == designator
  }

  lemma GroupOfComponent(n: Option<nat>, designator: char, rest: string)
    requires !IsDecimalDigit(designator)
    requires n.None? ==> !GroupMatches(rest, designator)
    ensures Group(Component(n, designator) + rest, designator) == (n.GetOr(0), rest)
  {
    match n
    case None =>
      assert Component(n, designator) + rest == rest;
    case Some(v) =>
      var digits := NatToString(v);
      var s := digits + [designator] + rest;
      assert s == digits + ([designator] + rest);
      DigitRunPrefix(digits, [designator] + rest, 10);
      assert s[..|digits|] == digits;
      assert s[|digits| + 1..] == rest;
  }

  /** A present component ends its digits with its own designator, so another group cannot match there. */
  lemma ComponentBlocksGroup(v: nat, designator: char, rest: string, other: char)
    requires !IsDecimalDigit(designator) && designator != other
    ensures !GroupMatches(Component(Some(v), designator) + rest, other)
  {
    var digits := NatToString(v);
    var s := digits + [designator] + rest;
    assert s == digits + ([designator] + rest);
    DigitRunPrefix(digits, [designator] + rest, 10);
  }

  /** A rendered `PTnHnMnS` duration reads back as `60*H + M + ceil(S/60)`, absent components as 0. */
  lemma ParseDurationOfDesignators(hours: Option<nat>, minutes: Option<nat>, seconds: Option<nat>)
    ensures ParseDuration(DurationString(hours, minutes, seconds))
         == Minutes(hours.GetOr(0), minutes.GetOr(0), seconds.GetOr(0))
  {
    var h := Component(hours, 'H');
    var m := Component(minutes, 'M');
    var sec := Component(seconds, 'S');
    var s := DurationString(hours, minutes, seconds);
    assert PTAt(s, 0);
    assert FindPT(s) == Some(0);
    assert s[2..] == h + (m + sec);
    if hours.None? {
      if minutes.Some? {
        ComponentBlocksGroup(minutes.value, 'M', sec, 'H');
      } else if seconds.Some? {
        assert m + sec == sec + [];
        ComponentBlocksGroup(seconds.value, 'S', [], 'H');
      } else {
        assert m + sec == [];
      }
    }
    GroupOfComponent(hours, 'H', m + sec);
    if minutes.None? && seconds.Some? {
      assert sec == sec + [];
      ComponentBlocksGroup(seconds.value, 'S', [], 'M');
    }
    GroupOfComponent(minutes, 'M', sec);
    assert sec == sec + [];
    GroupOfComponent(seconds, 'S', []);
  }

  /** More of any component never means fewer minutes. */
  lemma MinutesMonotonic(h: nat, m: nat, s: nat, h': nat, m': nat, s': nat)
    requires h <= h' && m <= m' && s <= s'
    ensures Minutes(h, m, s) <= Minutes(h', m', s')
  {
  }

  lemma RenderHoursMinutes()
    ensures DurationString(Some(1), Some(30), None) == "PT1H30M"
  {
    assert NatToString(30) == "30" by {
      assert 30 / 10 == 3 && 30 % 10 == 0;
      assert NatToString(3) == "3";
    }
  }

  lemma DurationExampleHoursMinutes()
    ensures ParseDuration("PT1H30M") == 90
  {
    RenderHoursMinutes();
    ParseDurationOfDesignators(Some(1), Some(30), None);
  }

  lemma DurationExampleSeconds()
    ensures ParseDuration("PT45S") == 1
  {
    ParseDurationOfDesignators(None, None, Some(45));
    assert NatToString(45) == "45";
    assert DurationString(None, None, Some(45)) == "PT45S";
  }

  lemma DurationExampleHours()
    ensures ParseDuration("PT2H") == 120
  {
    ParseDurationOfDesignators(Some(2), None, None);
    assert DurationString(Some(2), None, None) == "PT2H";
  }

  /** A duration with a date part and no literal `PT`, such as one day, reads as 0 minutes. */
  lemma DurationExampleDays()
    ensures ParseDuration("P1D") == 0
    ensures ParseDuration("P1DT2H") == 0
  {
    assert !PTAt("P1D", 0) && !PTAt("P1D", 1) && !PTAt("P1D", 2);
    var s := "P1DT2H";
    assert forall j :: 0 <= j < |s| ==> !PTAt(s, j);
  }

  // ---------------------------------------------------------------------------------------------
  // Metadata

  /** `a || b` on values. */
  function Or(a: Value, b: Value): Value {
    if Truthy(a) then a else b
  }

  function Lom(root: Value): Value {
    OptMember(OptMember(root, "metadata"), "lom")
  }

  function OrganizationTitle(root: Value): Value {
    OptMember(Organization(root), "title")
  }

  function LomTitle(root: Value): Value {
    OptMember(OptMember(OptMember(OptMember(Lom(root), "general"), "title"), "string"), "#text")
  }

  function DeclaredDuration(root: Value): Value {
    OptMember(OptMember(Lom(root), "technical"), "duration")
  }

  function Educational(root: Value, key: string): Value {
    OptMember(OptMember(Lom(root), "educational"), key)
  }

  /** `entry.string['#text']`, which throws when `entry` or `entry.string` is nullish. */
  function EntryText(entry: Value): (r: Result<Value, Thrown>)
    ensures r.Failure? <==> Nullish(entry) || Nullish(Member(entry, "string"))
    ensures r.Success? ==> r.value == Member(Member(entry, "string"), "#text")
  {
    match StrictMember(entry, "string")
    case Failure(e) => Failure(e)
    case Success(inner) => StrictMember(inner, "#text")
  }

  /** `entries.map(EntryText)`: the texts in order, or the first throw. */
  function EntryTexts(entries: seq<Value>): (r: Result<seq<Value>, Thrown>)
    ensures r.Success? <==> forall i :: 0 <= i < |entries| ==> EntryText(entries[i]).Success?
    ensures r.Success? ==> |r.value| == |entries|
    ensures r.Success? ==> forall i :: 0 <= i < |entries| ==> r.value[i] == EntryText(entries[i]).value
  {
    if entries == [] then Success([])
    else
      match EntryText(entries[0])
      case Failure(e) => Failure(e)
      case Success(first) =>
        match EntryTexts(entries[1..])
        case Failure(e) => Failure(e)
        case Success(rest) =>
          assert forall i :: 1 <= i < |entries| ==> entries[i] == entries[1..][i - 1];
          Success([first] + rest)
  }

  /**
    The objectives and prerequisites normalisation: absent (falsy) gives no list, an array gives one
    text per element in order, a single entry gives a one-element list.
  */
  function EntryList(declared: Value): (r: Result<Option<seq<Value>>, Thrown>)
    ensures !Truthy(declared) ==> r == Success(None)
    ensures Truthy(declared) && r.Success? ==> r.value.Some?
    ensures Truthy(declared) && declared.Arr? ==> r.Success? == EntryTexts(declared.items).Success?
    ensures r.Success? && r.value.Some? && declared.Arr? ==>
      |r.value.value| == |declared.items|
      && forall i :: 0 <= i < |declared.items| ==> r.value.value[i] == EntryText(declared.items[i]).value
    ensures r.Success? && r.value.Some? && !declared.Arr? ==>
      EntryText(declared).Success? && r.value.value == [EntryText(declared).value]
  {
    if !Truthy(declared) then Success(None)
    else if declared.Arr? then
      match EntryTexts(declared.items)
      case Failure(e) => Failure(e)
      case Success(texts) => Success(Some(texts))
    else
      match EntryText(declared)
      case Failure(e) => Failure(e)
      case Success(text) => Success(Some([text]))
  }

  /**
    `extractMetadata` on a truthy `manifest` element. The steps run in order inside one `try`: a
    TypeError (calling `match` on a non-string duration, or reading `string` of a nullish entry) ends
    the extraction and keeps what was assigned so far. It never throws.
  */
  function ExtractMetadata(root: Value): (md: Metadata)
    requires Truthy(root)
    ensures md.title == Or(OrganizationTitle(root), LomTitle(root))
    ensures md.duration.Some? <==> Truthy(DeclaredDuration(root)) && DeclaredDuration(root).Str?
    ensures md.duration.Some? ==> md.duration.value == ParseDuration(DeclaredDuration(root).s)
    ensures Truthy(DeclaredDuration(root)) && !DeclaredDuration(root).Str? ==> md.objectives.None? && md.prerequisites.None?
    ensures EntryList(Educational(root, "learningObjectives")).Failure? ==> md.objectives.None? && md.prerequisites.None?
    ensures md.objectives.Some? ==> EntryList(Educational(root, "learningObjectives")) == Success(md.objectives)
    ensures md.prerequisites.Some? ==>
      md.objectives.Some? || !Truthy(Educational(root, "learningObjectives"))
    ensures md.prerequisites.Some? ==> EntryList(Educational(root, "prerequisites")) == Success(md.prerequisites)
    ensures ((!Truthy(DeclaredDuration(root)) || DeclaredDuration(root).Str?)
      && EntryList(Educational(root, "learningObjectives")).Success?
      && EntryList(Educational(root, "prerequisites")).Success?)
      ==> (md.objectives == EntryList(Educational(root, "learningObjectives")).value
           && md.prerequisites == EntryList(Educational(root, "prerequisites")).value)
  {
    var title := Or(OrganizationTitle(root), LomTitle(root));
    var declared := DeclaredDuration(root);
    if Truthy(declared) && !declared.Str? then
      Metadata(title, None, None, None)
    else
      var duration := if Truthy(declared) then Some(ParseDuration(declared.s)) else None;
      match EntryList(Educational(root, "learningObjectives"))
      case Failure(_) => Metadata(title, duration, None, None)
      case Success(objectives) =>
        match EntryList(Educational(root, "prerequisites"))
        case Failure(_) => Metadata(title, duration, objectives, None)
        case Success(prerequisites) => Metadata(title, duration, objectives, prerequisites)
  }

  // ---------------------------------------------------------------------------------------------
  // validate

  /** The three declarative requirements on the `manifest` element. */
  predicate WellFormedRoot(root: Value) {
    Truthy(Organization(root)) && Truthy(Resource(root)) && Truthy(Version(root))
  }

  /** `validate`, from the download outcome on. Every failure is reported inside the result. */
  function Validate(download: Download, parse: Parser): (r: ValidationResult)
    ensures r.isValid <==> r.errors == []
    ensures r.metadata.Some? <==> r.isValid
    ensures |r.errors| <= 3
    ensures download.HttpNotOk? ==> r == Invalid([FetchFailed])
    ensures download.Rejected? ==> r == Invalid([download.message])
    ensures download.Unzipped? && ManifestPath !in download.archive ==> r == Invalid([MissingManifest])
    ensures (download.Unzipped? && ManifestPath in download.archive
      && parse(download.archive[ManifestPath]).Failure?)
      ==> r == Invalid([parse(download.archive[ManifestPath]).error])
    ensures (download.Unzipped? && ManifestPath in download.archive
      && parse(download.archive[ManifestPath]).Success?)
      ==> var doc := parse(download.archive[ManifestPath]).value;
        && (Nullish(doc) ==> r == Invalid([TypeErrorMessage]))
        && (!Nullish(doc) && !Truthy(Member(doc, "manifest")) ==> r == Invalid([InvalidStructure]))
        && (!Nullish(doc) && Truthy(Member(doc, "manifest")) ==> r.errors == StructureErrors(Member(doc, "manifest")))
        && (r.isValid ==> r.metadata == Some(ExtractMetadata(Member(doc, "manifest"))))
  {
    match download
    case HttpNotOk => Invalid([FetchFailed])
    case Rejected(message) => Invalid([message])
    case Unzipped(archive) =>
      if ManifestPath !in archive then Invalid([MissingManifest])
      else
        match parse(archive[ManifestPath])
        case Failure(message) => Invalid([message])
        case Success(doc) =>
          match ValidateManifestStructure(doc)
          case Failure(_) => Invalid([TypeErrorMessage])
          case Success(errors) =>
            if |errors| > 0 then Invalid(errors)
            else ValidationResult(true, [], Some(ExtractMetadata(Member(doc, "manifest"))))
  }

  /** The package is valid exactly when its manifest parses to a document with a well-formed root. */
  lemma ValidIffWellFormed(archive: Archive, parse: Parser)
    ensures Validate(Unzipped(archive), parse).isValid <==>
      && ManifestPath in archive
      && parse(archive[ManifestPath]).Success?
      && !Nullish(parse(archive[ManifestPath]).value)
      && var root := Member(parse(archive[ManifestPath]).value, "manifest");
         Truthy(root) && WellFormedRoot(root)
  {
    if ManifestPath in archive && parse(archive[ManifestPath]).Success? {
      var doc := parse(archive[ManifestPath]).value;
      if !Nullish(doc) && Truthy(Member(doc, "manifest")) {
        var errors := StructureErrors(Member(doc, "manifest"));
        if !WellFormedRoot(Member(doc, "manifest")) {
          assert errors != [] by {
            var root := Member(doc, "manifest");
            if !Truthy(Organization(root)) { assert MissingOrganizations in errors; }
            else if !Truthy(Resource(root)) { assert MissingResources in errors; }
            else { assert MissingVersion in errors; }
          }
        }
      }
    }
  }

  /** A valid result carries the metadata extracted from the parsed `manifest` element. */
  lemma ValidCarriesMetadata(archive: Archive, parse: Parser)
    requires Validate(Unzipped(archive), parse).isValid
    ensures ManifestPath in archive && parse(archive[ManifestPath]).Success?
    ensures var root := Member(parse(archive[ManifestPath]).value, "manifest");
      Truthy(root) && Validate(Unzipped(archive), parse).metadata == Some(ExtractMetadata(root))
  {
  }

  /** A parsed document without a truthy `manifest` root is rejected with that one message only. */
  lemma NoManifestRoot(archive: Archive, parse: Parser)
    requires ManifestPath in archive && parse(archive[ManifestPath]).Success?
    requires !Nullish(parse(archive[ManifestPath]).value)
    requires !Truthy(Member(parse(archive[ManifestPath]).value, "manifest"))
    ensures Validate(Unzipped(archive), parse) == Invalid([InvalidStructure])
  {
  }
}
