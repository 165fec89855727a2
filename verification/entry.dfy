/** The default export of index.ts: the options with their defaults, the
    file-name gate, then the type-erasing transform of the parsed source
    file and the optional pretty-printing of the printer's output. The
    TypeScript parser and printer are not modelled: the parsed tree and the
    printing function are parameters. */
module Entry {
  import opened Wrappers
  import opened Syntax
  import opened Text
  import Errors
  import Erasure
  import Pretty

  /** The caller's options; an absent field takes its default. */
  datatype Options = Options(removeComments: Option<bool>, fileName: Option<string>, prettyPrint: Option<bool>)

  const DefaultFileName: string := "input.ts"

  /** `{ ...defaultOptions, ...options }` for the file name. */
  function FileName(options: Options): (name: string)
    ensures options.fileName.None? ==> name == DefaultFileName
    ensures options.fileName.Some? ==> name == options.fileName.value
  {
    match options.fileName
    case None => DefaultFileName
    case Some(name) => name
  }

  /** The file-name gate: fewer than two dot-separated segments is a
      `filename` error; the last segment then decides — `jsx` or `tsx` is a
      `jsx` error, anything but `ts` an `extension` error. */
  function CheckFileName(name: string): (r: Outcome<Errors.ErrorCode>)
    ensures '.' !in name <==> r == Fail(Errors.Filename)
    ensures r.Pass? <==> EndsWith(name, ".ts")
    ensures r == Fail(Errors.Jsx) <==> EndsWith(name, ".jsx") || EndsWith(name, ".tsx")
    ensures r == Fail(Errors.Extension) <==>
              '.' in name && !EndsWith(name, ".ts") && !EndsWith(name, ".jsx") && !EndsWith(name, ".tsx")
  {
    var segments := Split(name, '.');
    SplitCount(name, '.');
    if |segments| < 2 then
      NoDotNoExtension(name, ".ts");
      NoDotNoExtension(name, ".jsx");
      NoDotNoExtension(name, ".tsx");
      Fail(Errors.Filename)
    else
      var extension := Last(segments);
      var i := LastDot(name);
      ExtensionIsSuffix(name, i, ".ts");
      ExtensionIsSuffix(name, i, ".jsx");
      ExtensionIsSuffix(name, i, ".tsx");
      assert ".ts"[1..] == "ts" && ".jsx"[1..] == "jsx" && ".tsx"[1..] == "tsx";
      if extension == "jsx" || extension == "tsx" then Fail(Errors.Jsx)
      else if extension != "ts" then Fail(Errors.Extension)
      else Pass
  }

  function Last(segments: seq<string>): string
    requires |segments| > 0
  {
    segments[|segments| - 1]
  }

  predicate EndsWith(s: string, suffix: string) {
    |suffix| <= |s| && s[|s| - |suffix|..] == suffix
  }

  /** The index of the last `.` in a name that has one. */
  function LastDot(name: string): (i: nat)
    requires '.' in name
    ensures i < |name| && name[i] == '.'
    ensures forall j :: i < j < |name| ==> name[j] != '.'
    decreases |name|
  {
    if name[|name| - 1] == '.' then |name| - 1
    else
      assert '.' in name[..|name| - 1] by {
        var k :| 0 <= k < |name| && name[k] == '.';
        assert name[..|name| - 1][k] == '.';
      }
      LastDot(name[..|name| - 1])
  }

  /** The last dot-separated segment is the text after the last dot, so it
      is `ext` exactly when the name ends with `.` followed by `ext`. */
  lemma ExtensionIsSuffix(name: string, i: nat, suffix: string)
    requires i < |name| && name[i] == '.'
    requires forall j :: i < j < |name| ==> name[j] != '.'
    requires |suffix| > 0 && suffix[0] == '.' && forall j :: 1 <= j < |suffix| ==> suffix[j] != '.'
    ensures |Split(name, '.')| >= 2
    ensures Last(Split(name, '.')) == name[i + 1..]
    ensures Last(Split(name, '.')) == suffix[1..] <==> EndsWith(name, suffix)
  {
    SplitLast(name, '.', i);
    SuffixAfterLastDot(name, i, suffix);
  }

  lemma SuffixAfterLastDot(name: string, i: nat, suffix: string)
    requires i < |name| && name[i] == '.'
    requires forall j :: i < j < |name| ==> name[j] != '.'
    requires |suffix| > 0 && suffix[0] == '.' && forall j :: 1 <= j < |suffix| ==> suffix[j] != '.'
    ensures name[i + 1..] == suffix[1..] <==> EndsWith(name, suffix)
  {
    if EndsWith(name, suffix) {
      var k := |name| - |suffix|;
      assert name[k] == suffix[0];
      assert k == i;
      assert name[i + 1..] == name[k..][1..];
    }
    if name[i + 1..] == suffix[1..] {
      assert name[|name| - |suffix|..] == [name[i]] + name[i + 1..];
    }
  }

  lemma NoDotNoExtension(name: string, suffix: string)
    requires '.' !in name && |suffix| > 0 && suffix[0] == '.'
    ensures !EndsWith(name, suffix)
  {
  }

  /** The default file name passes the gate. */
  lemma DefaultFileNamePasses(options: Options)
    requires options.fileName.None?
    ensures CheckFileName(FileName(options)) == Pass
  {
    assert EndsWith(DefaultFileName, ".ts");
  }

  /** Printed JavaScript, as UTF-16 code units. */
  type Output = seq<Pretty.CodeUnit>

  /** The compiler's printer, which is not modelled. */
  type Printer = Node -> Output

  /** The default export: the gate runs first, then the source file (the
      root of the parsed tree) is stripped, printed, and optionally prettified. */
  function TypeStrip(root: Node, options: Options, printFile: Printer): (r: Result<Output, Errors.ErrorCode>)
    requires root.Other? && root.kind.Unlisted?
    ensures CheckFileName(FileName(options)).Fail? ==> r == Failure(CheckFileName(FileName(options)).error)
    ensures CheckFileName(FileName(options)).Pass? ==>
              (r.Success? <==> Erasure.Strip(root).Success?) &&
              (r.Failure? ==> r.error == Erasure.Strip(root).error)
    ensures r.Success? ==>
              Erasure.Strip(root).Success? && Erasure.Strip(root).value.Some? &&
              (options.prettyPrint != Some(true) ==> r.value == printFile(Erasure.Strip(root).value.value)) &&
              (options.prettyPrint == Some(true) ==> r.value == Pretty.Pretty(printFile(Erasure.Strip(root).value.value)))
  {
    match CheckFileName(FileName(options))
    case Fail(e) => Failure(e)
    case Pass =>
      var stripped :- Erasure.Strip(root);
      if stripped.None? then
        assert false;
        Failure(Errors.Filename)
      else
        var output := printFile(stripped.value);
        Success(if options.prettyPrint == Some(true) then Pretty.Pretty(output) else output)
  }
}
