/** Validation of the report's output path (CreateReport.GetFilePath). */
module ReportOutput {
  import opened Wrappers
  import opened Text

  /** A project variable; its string value may be null. */
  datatype Variable = Variable(value: Option<string>)

  /** The ArgumentExceptions GetFilePath throws. */
  datatype PathError =
    | VariableNotFound   // no "FileName" variable
    | EmptyPath          // its value is null or empty
    | NotPdf             // its value does not contain ".pdf"

  /** The path held by the variable, when the variable exists and its value is not null. */
  function StoredPath(fileName: Option<Variable>): Option<string> {
    if fileName.Some? then fileName.value.value else None
  }

  /**
    GetFilePath up to the conversion to a URI: the variable must exist, its value
    must be neither null nor empty, and it must contain ".pdf" somewhere.
   */
  function GetFilePath(fileName: Option<Variable>): (r: Result<string, PathError>)
    ensures r.Success? <==> StoredPath(fileName).Some? && |StoredPath(fileName).value| > 0 && Contains(StoredPath(fileName).value, ".pdf")
    ensures r.Success? ==> r.value == StoredPath(fileName).value
    ensures fileName.None? ==> r == Failure(VariableNotFound)
    ensures fileName.Some? && (StoredPath(fileName).None? || StoredPath(fileName).value == []) ==> r == Failure(EmptyPath)
    ensures r == Failure(NotPdf) <==> StoredPath(fileName).Some? && |StoredPath(fileName).value| > 0 && !Contains(StoredPath(fileName).value, ".pdf")
  {
    match fileName
    case None => Failure(VariableNotFound)
    case Some(variable) =>
      match variable.value
      case None => Failure(EmptyPath)
      case Some(path) =>
        if |path| == 0 then Failure(EmptyPath)
        else if !Contains(path, ".pdf") then Failure(NotPdf)
        else Success(path)
  }

  /**
    Corrected validation: the same checks, but the path must end in ".pdf", which
    is what the source's own error message ("File extension must be .pdf") asks for.
   */
  function GetPdfFilePath(fileName: Option<Variable>): (r: Result<string, PathError>)
    ensures r.Success? <==> StoredPath(fileName).Some? && |StoredPath(fileName).value| > 0 && EndsWith(StoredPath(fileName).value, ".pdf")
    ensures r.Success? ==> r.value == StoredPath(fileName).value
    ensures r.Failure? ==> r.error == match GetFilePath(fileName) case Failure(e) => e case Success(_) => NotPdf
  {
    match fileName
    case None => Failure(VariableNotFound)
    case Some(variable) =>
      match variable.value
      case None => Failure(EmptyPath)
      case Some(path) =>
        if |path| == 0 then Failure(EmptyPath)
        else if !EndsWith(path, ".pdf") then Failure(NotPdf)
        else Success(path)
  }

  /** Every path the corrected validation accepts, the original accepts too. */
  lemma PdfFilePathAcceptsLess(fileName: Option<Variable>)
    requires GetPdfFilePath(fileName).Success?
    ensures GetFilePath(fileName) == GetPdfFilePath(fileName)
  {
    EndsWithContains(StoredPath(fileName).value, ".pdf");
  }

  /** "report.pdf.txt" has no .pdf extension, yet the containment check accepts it. */
  lemma NonPdfExtensionAccepted()
    ensures GetFilePath(Some(Variable(Some("report.pdf.txt")))) == Success("report.pdf.txt")
    ensures GetPdfFilePath(Some(Variable(Some("report.pdf.txt")))) == Failure(NotPdf)
  {
    assert OccursAt("report.pdf.txt", ".pdf", 6);
    assert "report.pdf.txt"[10..] != ".pdf";
  }
}
