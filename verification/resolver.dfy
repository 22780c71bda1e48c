/**
  Answering the PDF renderer (FontResolver.ResolveTypeface and FontResolver.GetFont):
  which font face serves a family and a bold/italic request, and which scanned file
  holds the bytes of a face.
 */
module Resolver {
  import opened Wrappers
  import opened Text
  import opened AssocList
  import opened Fonts
  import opened Catalogue

  /** The exceptions ResolveTypeface throws. */
  datatype ResolveError =
    | NoFontsInstalled   // the catalogue is empty
    | EmptyStyleTable    // `.First()` on a family without any style

  /** The style the flags ask for before the Regular fallback; none when neither flag is set. */
  function RequestedStyle(isBold: bool, isItalic: bool): Option<XFontStyle> {
    if isBold && isItalic then Some(XBoldItalic)
    else if isBold then Some(XBold)
    else if isItalic then Some(XItalic)
    else None
  }

  /** The requested style, if any, is a key of the table. */
  predicate RequestedPresent(files: AList<XFontStyle, string>, isBold: bool, isItalic: bool) {
    RequestedStyle(isBold, isItalic).Some? && RequestedStyle(isBold, isItalic).value in KeySet(files)
  }

  /**
    The style cascade for a known family: the requested style if the table has it,
    otherwise Regular if present, otherwise the first registered entry. A bold and
    italic request without a BoldItalic entry goes on to the Regular step.
   */
  function SelectEntry(files: AList<XFontStyle, string>, isBold: bool, isItalic: bool): (r: Option<(XFontStyle, string)>)
    ensures r.Some? <==> |files| > 0
    ensures r.Some? ==> r.value in files && Lookup(files, r.value.0) == Some(r.value.1)
    ensures RequestedPresent(files, isBold, isItalic) ==> r.Some? && r.value.0 == RequestedStyle(isBold, isItalic).value
    ensures !RequestedPresent(files, isBold, isItalic) && XRegular in KeySet(files) ==> r.Some? && r.value.0 == XRegular
    ensures !RequestedPresent(files, isBold, isItalic) && XRegular !in KeySet(files) && |files| > 0 ==> r == Some(files[0])
  {
    if isBold && isItalic && Lookup(files, XBoldItalic).Some? then Some((XBoldItalic, Lookup(files, XBoldItalic).value))
    else if isBold && !isItalic && Lookup(files, XBold).Some? then Some((XBold, Lookup(files, XBold).value))
    else if !isBold && isItalic && Lookup(files, XItalic).Some? then Some((XItalic, Lookup(files, XItalic).value))
    else if Lookup(files, XRegular).Some? then Some((XRegular, Lookup(files, XRegular).value))
    else if |files| > 0 then
      assert files[0] in files;
      Some(files[0])
    else None
  }

  /**
    Without a BoldItalic entry a bold and italic request is answered exactly like a
    plain request: Regular if present, otherwise the first registered entry, which
    may happen to be the Bold or Italic one; Bold and Italic are never looked up.
   */
  lemma BoldItalicFallbackSkipsBoldAndItalic(files: AList<XFontStyle, string>)
    requires XBoldItalic !in KeySet(files)
    ensures SelectEntry(files, true, true) == SelectEntry(files, false, false)
    ensures XRegular in KeySet(files) ==> SelectEntry(files, true, true).value.0 == XRegular
    ensures XRegular !in KeySet(files) && |files| > 0 ==> SelectEntry(files, true, true) == Some(files[0])
  {
  }

  /**
    ResolveTypeface: the face name (file name without directory) serving a family
    and style request, `None` for the null the source returns when the family is
    unknown and `nullIfFontNotFound` is set.
   */
  function ResolveTypeface(os: Platform, catalogue: FontCatalogue, nullIfFontNotFound: bool, familyName: string, isBold: bool, isItalic: bool)
    : (r: Result<Option<string>, ResolveError>)
    ensures |catalogue| == 0 ==> r == Failure(NoFontsInstalled)
    ensures CatalogueWellFormed(catalogue) && |catalogue| > 0 ==> r.Success?
    ensures r.Success? && r.value.Some? ==>
              exists e, f :: e in catalogue && f in e.1.fontFiles && r.value.value == FileName(os, f.1)
    ensures |catalogue| > 0 && Lower(familyName) in KeySet(catalogue) ==>
              var family := Lookup(catalogue, Lower(familyName)).value;
              (r.Success? <==> |family.fontFiles| > 0) &&
              (r.Success? ==> r == Success(Some(FileName(os, SelectEntry(family.fontFiles, isBold, isItalic).value.1))))
    ensures |catalogue| > 0 && Lower(familyName) !in KeySet(catalogue) && nullIfFontNotFound ==> r == Success(None)
    ensures |catalogue| > 0 && Lower(familyName) !in KeySet(catalogue) && !nullIfFontNotFound ==>
              (r.Success? <==> |catalogue[0].1.fontFiles| > 0) &&
              (r.Success? ==> r == Success(Some(FileName(os, catalogue[0].1.fontFiles[0].1))))
  {
    if |catalogue| == 0 then Failure(NoFontsInstalled)
    else match Lookup(catalogue, Lower(familyName))
      case Some(family) =>
        (match SelectEntry(family.fontFiles, isBold, isItalic)
         case Some(entry) => Success(Some(FileName(os, entry.1)))
         case None => Failure(EmptyStyleTable))
      case None =>
        if nullIfFontNotFound then Success(None)
        else
          var first := catalogue[0].1;
          assert catalogue[0] in catalogue;
          if |first.fontFiles| > 0 then
            assert first.fontFiles[0] in first.fontFiles;
            Success(Some(FileName(os, first.fontFiles[0].1)))
          else Failure(EmptyStyleTable)
  }

  /** Family lookup ignores case: names with the same fold resolve alike. */
  lemma ResolveIgnoresCase(os: Platform, catalogue: FontCatalogue, nullIfFontNotFound: bool, a: string, b: string, isBold: bool, isItalic: bool)
    requires Lower(a) == Lower(b)
    ensures ResolveTypeface(os, catalogue, nullIfFontNotFound, a, isBold, isItalic) ==
            ResolveTypeface(os, catalogue, nullIfFontNotFound, b, isBold, isItalic)
  {
  }

  /** In particular a family name resolves like its lower-case form. */
  lemma ResolveAsLowerCase(os: Platform, catalogue: FontCatalogue, nullIfFontNotFound: bool, name: string, isBold: bool, isItalic: bool)
    ensures ResolveTypeface(os, catalogue, nullIfFontNotFound, name, isBold, isItalic) ==
            ResolveTypeface(os, catalogue, nullIfFontNotFound, Lower(name), isBold, isItalic)
  {
    LowerIdempotent(name);
  }

  // ---------------------------------------------------------------------------
  // Serving font bytes: which scanned file GetFont reads

  /** The exception GetFont throws, naming the face it could not find. */
  datatype FetchError = NoFontFileFound(faceFileName: string)

  /** Enumerable.First with a predicate: the index of the first path `accept` takes. */
  function FirstWhere(paths: seq<string>, accept: string -> bool): (r: Option<nat>)
    ensures r.None? <==> forall i :: 0 <= i < |paths| ==> !accept(paths[i])
    ensures r.Some? ==> r.value < |paths| && accept(paths[r.value])
                        && forall j :: 0 <= j < r.value ==> !accept(paths[j])
    decreases |paths|
  {
    if |paths| == 0 then None
    else if accept(paths[0]) then Some(0)
    else
      var r := FirstWhere(paths[1..], accept);
      assert forall i :: 1 <= i < |paths| ==> paths[i] == paths[1..][i - 1];
      if r.None? then None else Some(r.value + 1)
  }

  /** Index `i` holds the first scanned path that contains `name`, ignoring case. */
  predicate FirstContainingAt(supportedFonts: seq<string>, name: string, i: int) {
    && 0 <= i < |supportedFonts|
    && ContainsIgnoreCase(supportedFonts[i], name)
    && forall j :: 0 <= j < i ==> !ContainsIgnoreCase(supportedFonts[j], name)
  }

  /**
    GetFont, up to reading the file: the first scanned path that contains the
    face's file name, ignoring case; the error when no path does.
   */
  function GetFont(os: Platform, supportedFonts: seq<string>, faceFileName: string): (r: Result<string, FetchError>)
    ensures r.Failure? <==> forall i :: 0 <= i < |supportedFonts| ==> !ContainsIgnoreCase(supportedFonts[i], FileName(os, faceFileName))
    ensures r.Failure? ==> r.error == NoFontFileFound(faceFileName)
    ensures r.Success? ==> exists i :: FirstContainingAt(supportedFonts, FileName(os, faceFileName), i) && supportedFonts[i] == r.value
  {
    var name := FileName(os, faceFileName);
    match FirstWhere(supportedFonts, ContainsNameOf(name))
    case Some(i) =>
      ContainingFound(supportedFonts, name, i);
      Success(supportedFonts[i])
    case None =>
      ContainingMissing(supportedFonts, name);
      Failure(NoFontFileFound(faceFileName))
  }

  /** The test the substring search applies to each scanned path. */
  function ContainsNameOf(name: string): string -> bool {
    path => ContainsIgnoreCase(path, name)
  }

  lemma ContainingFound(supportedFonts: seq<string>, name: string, i: nat)
    requires FirstWhere(supportedFonts, ContainsNameOf(name)) == Some(i)
    ensures FirstContainingAt(supportedFonts, name, i)
  {
    var accept := ContainsNameOf(name);
    assert forall j :: 0 <= j < i ==> !accept(supportedFonts[j]);
  }

  lemma ContainingMissing(supportedFonts: seq<string>, name: string)
    requires FirstWhere(supportedFonts, ContainsNameOf(name)).None?
    ensures forall i :: 0 <= i < |supportedFonts| ==> !ContainsIgnoreCase(supportedFonts[i], name)
  {
    var accept := ContainsNameOf(name);
    assert forall i :: 0 <= i < |supportedFonts| ==> !accept(supportedFonts[i]);
  }

  /** Same fold of the file name: the comparison the file search evidently intends. */
  predicate SameFileName(os: Platform, path: string, faceFileName: string) {
    Lower(FileName(os, path)) == Lower(FileName(os, faceFileName))
  }

  /** Index `i` holds the first scanned path whose file name is the face's, ignoring case. */
  predicate FirstSameNameAt(os: Platform, supportedFonts: seq<string>, faceFileName: string, i: int) {
    && 0 <= i < |supportedFonts|
    && SameFileName(os, supportedFonts[i], faceFileName)
    && forall j :: 0 <= j < i ==> !SameFileName(os, supportedFonts[j], faceFileName)
  }

  /**
    Corrected file search: the first scanned path whose file name equals the
    face's file name, ignoring case, instead of merely containing it.
   */
  function GetFontByFileName(os: Platform, supportedFonts: seq<string>, faceFileName: string): (r: Result<string, FetchError>)
    ensures r.Failure? <==> forall i :: 0 <= i < |supportedFonts| ==> !SameFileName(os, supportedFonts[i], faceFileName)
    ensures r.Failure? ==> r.error == NoFontFileFound(faceFileName)
    ensures r.Success? ==> exists i :: FirstSameNameAt(os, supportedFonts, faceFileName, i) && supportedFonts[i] == r.value
  {
    match FirstWhere(supportedFonts, SameNameAs(os, faceFileName))
    case Some(i) =>
      SameNameFound(os, supportedFonts, faceFileName, i);
      Success(supportedFonts[i])
    case None =>
      SameNameMissing(os, supportedFonts, faceFileName);
      Failure(NoFontFileFound(faceFileName))
  }

  /** The test the corrected search applies to each scanned path. */
  function SameNameAs(os: Platform, faceFileName: string): string -> bool {
    path => SameFileName(os, path, faceFileName)
  }

  lemma SameNameFound(os: Platform, supportedFonts: seq<string>, faceFileName: string, i: nat)
    requires FirstWhere(supportedFonts, SameNameAs(os, faceFileName)) == Some(i)
    ensures FirstSameNameAt(os, supportedFonts, faceFileName, i)
  {
    var accept := SameNameAs(os, faceFileName);
    assert forall j :: 0 <= j < i ==> !accept(supportedFonts[j]);
  }

  lemma SameNameMissing(os: Platform, supportedFonts: seq<string>, faceFileName: string)
    requires FirstWhere(supportedFonts, SameNameAs(os, faceFileName)).None?
    ensures forall i :: 0 <= i < |supportedFonts| ==> !SameFileName(os, supportedFonts[i], faceFileName)
  {
    var accept := SameNameAs(os, faceFileName);
    assert forall i :: 0 <= i < |supportedFonts| ==> !accept(supportedFonts[i]);
  }

  /** A path with the face's file name makes the corrected search succeed. */
  lemma SameNamePathFetched(os: Platform, supportedFonts: seq<string>, faceFileName: string, i: int)
    requires 0 <= i < |supportedFonts| && SameFileName(os, supportedFonts[i], faceFileName)
    ensures GetFontByFileName(os, supportedFonts, faceFileName).Success?
  {
    var r := GetFontByFileName(os, supportedFonts, faceFileName);
    if r.Failure? {
      assert false;
    }
  }

  /** A file whose name is the face's name is always found by the substring search. */
  lemma SameFileNameContains(os: Platform, path: string, faceFileName: string)
    requires SameFileName(os, path, faceFileName)
    ensures ContainsIgnoreCase(path, FileName(os, faceFileName))
  {
    var name := FileName(os, path);
    assert path[|path| - |name|..] == name;
    FoldedEndingContained(path, |path| - |name|, FileName(os, faceFileName));
  }

  /**
    Wherever the file-name search would find a file, the substring search finds one
    too (the same or an earlier path).
   */
  lemma FileNameSearchWithinSubstringSearch(os: Platform, supportedFonts: seq<string>, faceFileName: string, i: int)
    requires 0 <= i < |supportedFonts| && SameFileName(os, supportedFonts[i], faceFileName)
    ensures GetFont(os, supportedFonts, faceFileName).Success?
  {
    SameFileNameContains(os, supportedFonts[i], faceFileName);
    ContainingPathFetched(os, supportedFonts, faceFileName, i);
  }

  /** A path containing the face's file name makes the substring search succeed. */
  lemma ContainingPathFetched(os: Platform, supportedFonts: seq<string>, faceFileName: string, i: int)
    requires 0 <= i < |supportedFonts| && ContainsIgnoreCase(supportedFonts[i], FileName(os, faceFileName))
    ensures GetFont(os, supportedFonts, faceFileName).Success?
  {
    var r := GetFont(os, supportedFonts, faceFileName);
    if r.Failure? {
      assert false;
    }
  }

  /** The face of the example below is a bare file name, on either platform. */
  lemma ExampleFaceName(os: Platform)
    ensures FileName(os, "arial.ttf") == "arial.ttf"
  {
    FileNameOfPlainName(os, "arial.ttf");
  }

  /** Each scanned path of the example below has its name after "/f/", on either platform. */
  lemma ExampleScannedFileName(os: Platform, path: string)
    requires path == "/f/myarial.ttf" || path == "/f/arial.ttf"
    ensures FileName(os, path) == path[3..]
  {
    FileNameAfterSeparator(os, path, 2);
  }

  /** "arial.ttf" occurs in "/f/myarial.ttf" from index 5. */
  lemma ExampleContainment()
    ensures ContainsIgnoreCase("/f/myarial.ttf", "arial.ttf")
  {
    var wrong, face := "/f/myarial.ttf", "arial.ttf";
    LowerOfFolded(wrong);
    LowerOfFolded(face);
    assert OccursAt(Lower(wrong), Lower(face), 5);
  }

  /**
    The substring search can serve another file than the one named: with
    "/f/myarial.ttf" scanned before "/f/arial.ttf", asking for "arial.ttf" reads
    "/f/myarial.ttf", whose file name is "myarial.ttf".
   */
  lemma GetFontServesWrongFile(os: Platform)
    ensures GetFont(os, ["/f/myarial.ttf", "/f/arial.ttf"], "arial.ttf") == Success("/f/myarial.ttf")
    ensures FileName(os, "/f/myarial.ttf") != "arial.ttf"
  {
    ExampleFaceName(os);
    ExampleScannedFileName(os, "/f/myarial.ttf");
    ExampleContainment();
    var l := ["/f/myarial.ttf", "/f/arial.ttf"];
    assert ContainsIgnoreCase(l[0], FileName(os, "arial.ttf"));
    assert FirstContainingAt(l, FileName(os, "arial.ttf"), 0);
  }

  /** Of the two scanned paths only "/f/arial.ttf" has the face's file name. */
  lemma ExampleSameNames(os: Platform)
    ensures !SameFileName(os, "/f/myarial.ttf", "arial.ttf")
    ensures SameFileName(os, "/f/arial.ttf", "arial.ttf")
  {
    ExampleOtherName(os);
    ExampleOwnName(os);
  }

  /** "/f/myarial.ttf" has a longer file name than "arial.ttf", so the names differ. */
  lemma ExampleOtherName(os: Platform)
    ensures !SameFileName(os, "/f/myarial.ttf", "arial.ttf")
  {
    ExampleFaceName(os);
    ExampleScannedFileName(os, "/f/myarial.ttf");
    SameFileNameLength(os, "/f/myarial.ttf", "arial.ttf");
  }

  /** "/f/arial.ttf" has file name "arial.ttf". */
  lemma ExampleOwnName(os: Platform)
    ensures SameFileName(os, "/f/arial.ttf", "arial.ttf")
  {
    var path, face := "/f/arial.ttf", "arial.ttf";
    ExampleScannedFileName(os, path);
    assert path[3..] == face;
    var name := FileName(os, path);
    FileNameOfPlainName(os, name);
    EqualFileNamesSame(os, path, name);
  }

  /** Equal file names are the same file name, ignoring case. */
  lemma EqualFileNamesSame(os: Platform, path: string, faceFileName: string)
    requires FileName(os, path) == FileName(os, faceFileName)
    ensures SameFileName(os, path, faceFileName)
  {
  }

  /** Names that fold alike have the same length. */
  lemma SameFileNameLength(os: Platform, path: string, faceFileName: string)
    ensures SameFileName(os, path, faceFileName) ==> |FileName(os, path)| == |FileName(os, faceFileName)|
  {
    if SameFileName(os, path, faceFileName) {
      assert |Lower(FileName(os, path))| == |Lower(FileName(os, faceFileName))|;
    }
  }

  /** On the same scan the file-name search reads "/f/arial.ttf". */
  lemma GetFontByFileNameServesNamedFile(os: Platform)
    ensures GetFontByFileName(os, ["/f/myarial.ttf", "/f/arial.ttf"], "arial.ttf") == Success("/f/arial.ttf")
  {
    ExampleSameNames(os);
    var l, face := ["/f/myarial.ttf", "/f/arial.ttf"], "arial.ttf";
    var r := GetFontByFileName(os, l, face);
    assert SameFileName(os, l[1], face);
    assert r.Success?;
    var i :| FirstSameNameAt(os, l, face, i) && l[i] == r.value;
    assert !SameFileName(os, l[0], face);
    assert i == 1;
  }
}
