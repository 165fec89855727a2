/** The release helper of bump.ts: read the current version (defaulting to
    "0.0.0"), split it on dots, and increment its major, minor or patch
    component. Reading and writing the configuration file, the console and
    the git commands are not modelled. */
module Bump {
  import opened Wrappers
  import opened Text

  /** The values a version component takes once `Number` has read it: a
      natural, `NaN`, or `undefined` when the version has too few components. */
  datatype JsValue = Num(value: nat) | NaN | Undefined

  datatype BumpError = InvalidBumpArgument

  /** The message the source throws for an unknown bump kind. */
  function Message(e: BumpError): string {
    "Invalid version bump argument: major, minor or patch"
  }

  const DefaultVersion: string := "0.0.0"

  /** `json["version"] || "0.0.0"`: a missing or empty version falls back to the default. */
  function CurrentVersion(field: Option<string>): (version: string)
    ensures version != ""
    ensures field.None? || field.value == "" ==> version == DefaultVersion
    ensures field.Some? && field.value != "" ==> version == field.value
  {
    if field.None? || field.value == "" then DefaultVersion else field.value
  }

  /** `Number(part)` on a dot-free component: the empty text is 0, a run of
      decimal digits is its value, anything else is `NaN`. */
  function ToNumber(part: string): (r: JsValue)
    ensures r.Num? <==> part == "" || IsDecimal(part)
    ensures part == "" ==> r == Num(0)
    ensures IsDecimal(part) ==> r == Num(DecimalValue(part))
    ensures !r.Undefined?
  {
    if part == [] then Num(0)
    else if IsDecimal(part) then Num(DecimalValue(part))
    else NaN
  }

  /** `const [major, minor, patch] = version.split(".").map(Number)`. */
  function Component(parts: seq<string>, i: nat): (r: JsValue)
    ensures i < |parts| ==> r == ToNumber(parts[i])
    ensures i >= |parts| ==> r == Undefined
  {
    if i < |parts| then ToNumber(parts[i]) else Undefined
  }

  /** `x + 1` on a component: `undefined + 1` and `NaN + 1` are `NaN`. */
  function Increment(x: JsValue): (r: JsValue)
    ensures r.Num? <==> x.Num?
    ensures x.Num? ==> r.value == x.value + 1
    ensures !r.Undefined?
  {
    match x
    case Num(n) => Num(n + 1)
    case _ => NaN
  }

  /** How `Array.prototype.join` writes a component: `undefined` as the empty text. */
  function Show(x: JsValue): (s: string)
    ensures x.Num? ==> IsDecimal(s) && DecimalValue(s) == x.value
    ensures x.Num? && |s| > 1 ==> s[0] != '0'
    ensures x.NaN? <==> s == "NaN"
    ensures x.Undefined? <==> s == ""
    ensures '.' !in s
  {
    match x
    case Num(n) => NatToDecimal(n)
    case NaN => "NaN"
    case Undefined => ""
  }

  /** The bump proper, on the version text: the new version text, or the
      error for a kind other than "major", "minor" or "patch". */
  function BumpText(version: string, kind: string): (r: Result<string, BumpError>)
    ensures r.Success? <==> kind == "major" || kind == "minor" || kind == "patch"
    ensures r.Failure? ==> r.error == InvalidBumpArgument
    ensures r.Success? ==> |Split(r.value, '.')| == 3
  {
    var parts := Split(version, '.');
    var major, minor, patch := Component(parts, 0), Component(parts, 1), Component(parts, 2);
    var components :=
      if kind == "major" then [Show(Increment(major)), "0", "0"]
      else if kind == "minor" then [Show(major), Show(Increment(minor)), "0"]
      else [Show(major), Show(minor), Show(Increment(patch))];
    if kind == "major" || kind == "minor" || kind == "patch" then
      SplitJoin(components, '.');
      Success(Join(components, '.'))
    else
      Failure(InvalidBumpArgument)
  }

  /** `updateVersion`, given the configuration's `version` field. */
  function UpdateVersion(field: Option<string>, kind: string): (r: Result<string, BumpError>)
    ensures r.Success? <==> kind == "major" || kind == "minor" || kind == "patch"
    ensures r.Failure? ==> r.error == InvalidBumpArgument
  {
    BumpText(CurrentVersion(field), kind)
  }

  // ---------------------------------------------------------------------------
  // Well-formed versions.
  // ---------------------------------------------------------------------------

  datatype Version = Version(major: nat, minor: nat, patch: nat)

  /** The canonical text of a version. */
  function Format(v: Version): (s: string)
    ensures s != ""
  {
    Join([NatToDecimal(v.major), NatToDecimal(v.minor), NatToDecimal(v.patch)], '.')
  }

  /** The version the bump reads from a text, when its three components are numbers. */
  function Parse(s: string): (r: Option<Version>)
    ensures r.Some? <==> s != "" && forall i :: 0 <= i < 3 ==> Component(Split(s, '.'), i).Num?
  {
    var parts := Split(s, '.');
    match (Component(parts, 0), Component(parts, 1), Component(parts, 2))
    case (Num(major), Num(minor), Num(patch)) =>
      if s == "" then None else Some(Version(major, minor, patch))
    case _ => None
  }

  /** Lexicographic order on (major, minor, patch). */
  predicate Less(v: Version, w: Version) {
    v.major < w.major ||
    (v.major == w.major && v.minor < w.minor) ||
    (v.major == w.major && v.minor == w.minor && v.patch < w.patch)
  }

  /** Reading the canonical text gives the version back. */
  lemma FormatParse(v: Version)
    ensures Parse(Format(v)) == Some(v)
  {
    var parts := [NatToDecimal(v.major), NatToDecimal(v.minor), NatToDecimal(v.patch)];
    SplitJoin(parts, '.');
  }

  /** The semantic-versioning successor of each kind. */
  function Next(v: Version, kind: string): (w: Version)
    requires kind == "major" || kind == "minor" || kind == "patch"
    ensures Less(v, w)
  {
    if kind == "major" then Version(v.major + 1, 0, 0)
    else if kind == "minor" then Version(v.major, v.minor + 1, 0)
    else Version(v.major, v.minor, v.patch + 1)
  }

  /** On the canonical text of a version, the bump writes the canonical
      text of its successor. */
  lemma {:induction false} UpdateVersionFormats(v: Version, kind: string)
    requires kind == "major" || kind == "minor" || kind == "patch"
    ensures BumpText(Format(v), kind) == Success(Format(Next(v, kind)))
  {
    var parts := [NatToDecimal(v.major), NatToDecimal(v.minor), NatToDecimal(v.patch)];
    SplitJoin(parts, '.');
    assert Component(parts, 0) == Num(v.major);
    assert Component(parts, 1) == Num(v.minor);
    assert Component(parts, 2) == Num(v.patch);
    assert NatToDecimal(0) == "0";
  }

  /** Bumping a well-formed version gives a well-formed version that is
      lexicographically greater, and is the successor of that kind. */
  lemma UpdateVersionIncreases(v: Version, kind: string)
    requires kind == "major" || kind == "minor" || kind == "patch"
    ensures BumpText(Format(v), kind).Success?
    ensures var w := Parse(BumpText(Format(v), kind).value);
            w.Some? && Less(v, w.value) &&
            (kind == "major" ==> w.value == Version(v.major + 1, 0, 0)) &&
            (kind == "minor" ==> w.value == Version(v.major, v.minor + 1, 0)) &&
            (kind == "patch" ==> w.value == Version(v.major, v.minor, v.patch + 1))
  {
    UpdateVersionFormats(v, kind);
    FormatParse(Next(v, kind));
  }

  /** A configuration holding the canonical text of a version is bumped to
      the canonical text of its successor. */
  lemma UpdateVersionOfWellFormed(v: Version, kind: string)
    requires kind == "major" || kind == "minor" || kind == "patch"
    ensures UpdateVersion(Some(Format(v)), kind) == Success(Format(Next(v, kind)))
  {
    UpdateVersionFormats(v, kind);
  }

  /** Without a version (or with an empty one), the bump starts from 0.0.0. */
  lemma DefaultVersionBump(field: Option<string>, kind: string)
    requires field.None? || field.value == ""
    requires kind == "major" || kind == "minor" || kind == "patch"
    ensures UpdateVersion(field, kind) == Success(Format(Next(Version(0, 0, 0), kind)))
  {
    assert NatToDecimal(0) == "0";
    assert Format(Version(0, 0, 0)) == DefaultVersion;
    UpdateVersionFormats(Version(0, 0, 0), kind);
  }

  /** The bump does not validate the version: a patch bump of a version
      with fewer than three components writes `NaN` as the patch, so the
      result is not a well-formed version. */
  lemma PatchOfShortVersionIsMalformed(version: string)
    requires |Split(version, '.')| < 3
    ensures Parse(BumpText(version, "patch").value).None?
  {
    var parts := Split(version, '.');
    var components := [Show(Component(parts, 0)), Show(Component(parts, 1)), Show(Increment(Component(parts, 2)))];
    SplitJoin(components, '.');
    assert components[2] == "NaN";
    assert !IsDigit("NaN"[0]);
  }
}
