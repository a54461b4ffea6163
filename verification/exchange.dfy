/** How the export side and the import side of the application fit
    together. */
module Exchange {
  import opened JsValues
  import opened Strings
  import opened Exporters
  import opened FileHandler

  const DocExtension: string := "doc"

  lemma LowerDocExtension()
    ensures Lower(DocExtension) == DocExtension
  {
    assert forall i :: 0 <= i < |DocExtension| ==> !('A' <= DocExtension[i] <= 'Z');
  }

  /** Helper: the lower-cased extension `doc` is in the document list. */
  lemma DocExtensionIsDocument()
    ensures GetFileCategory(DocExtension) == Some(Document)
  {
    LowerDocExtension();
    assert DocExtension in ExtensionsOf(Document);
  }

  /** Any name ending in `.doc` passes the intake checks as a document. */
  lemma DocNameIsImportable(stem: string)
    ensures GetFileExtension(TStr(stem + "." + DocExtension)) == DocExtension
    ensures HandleFilePrecheck(Some(FileRef(TStr(stem + "." + DocExtension)))).result == Success(DocExtension)
  {
    assert '.' !in DocExtension;
    ExtensionOfName(stem, DocExtension);
    LowerDocExtension();
    DocExtensionIsDocument();
    SupportedIffCategory(DocExtension);
  }

  lemma DefaultDocName(d: CaseData, filename: Field)
    requires !Truthy(filename)
    ensures ExportDoc(Some(d), filename).value.filename
      == "Case_" + (if Truthy(d.initials) then d.initials.s else "export") + "." + DocExtension
  {
    var stem := "Case_" + (if Truthy(d.initials) then d.initials.s else "export");
    assert "." + DocExtension == ".doc";
    AppendAssoc(stem, ".", DocExtension);
  }

  /** A Word export saved under its default name passes the file intake's
      extension checks, as a document. */
  lemma DefaultDocNameIsImportable(d: CaseData, filename: Field)
    requires !Truthy(filename)
    ensures var name := ExportDoc(Some(d), filename).value.filename;
      && GetFileCategory(GetFileExtension(TStr(name))) == Some(Document)
      && HandleFilePrecheck(Some(FileRef(TStr(name)))).result == Success(DocExtension)
  {
    DefaultDocName(d, filename);
    DocNameIsImportable("Case_" + (if Truthy(d.initials) then d.initials.s else "export"));
    DocExtensionIsDocument();
  }
}
