/** Properties of the default export of index.ts that follow from the
    transform's: which statement's error it raises, and which files it
    converts. */
module EntryProperties {
  import opened Wrappers
  import opened Syntax
  import Errors
  import Erasure
  import ErasureProperties
  import Acceptance
  import Entry

  /** The statements of the file are visited in order, so the first one that
      raises decides the error: an enum, a namespace, a JSX element or a
      `<T>` cast raises its own code when every statement before it strips. */
  lemma TypeStripFirstError(root: Node, options: Entry.Options, printFile: Entry.Printer, i: nat)
    requires root.Other? && root.kind.Unlisted?
    requires Entry.CheckFileName(Entry.FileName(options)).Pass?
    requires i < |root.children| && Erasure.Strip(root.children[i]).Failure?
    requires forall j :: 0 <= j < i ==> Erasure.Strip(root.children[j]).Success?
    ensures Entry.TypeStrip(root, options, printFile) == Failure(Erasure.Strip(root.children[i]).error)
    ensures root.children[i].Other? && root.children[i].kind == EnumDeclaration ==>
              Entry.TypeStrip(root, options, printFile) == Failure(Errors.Enum)
    ensures root.children[i].Other? && root.children[i].kind == ModuleDeclaration ==>
              Entry.TypeStrip(root, options, printFile) == Failure(Errors.Namespace)
    ensures root.children[i].Other? && root.children[i].kind == JsxElement ==>
              Entry.TypeStrip(root, options, printFile) == Failure(Errors.Jsx)
    ensures root.children[i].Other? && root.children[i].kind == TypeAssertion ==>
              Entry.TypeStrip(root, options, printFile) == Failure(Errors.TypeAssertionExpression)
  {
    ErasureProperties.StripAllFirstFailure(root.children, i);
  }

  /** A file is converted exactly when its name passes the gate and nothing
      the visitor reaches in it is refused. */
  lemma TypeStripSucceedsIffAccepted(root: Node, options: Entry.Options, printFile: Entry.Printer)
    requires root.Other? && root.kind.Unlisted?
    ensures Entry.TypeStrip(root, options, printFile).Success? <==>
              Entry.CheckFileName(Entry.FileName(options)).Pass? && Acceptance.Accepted(root)
  {
    Acceptance.StripSucceedsIffAccepted(root);
  }
}
