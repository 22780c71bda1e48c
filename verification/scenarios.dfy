/** Properties that span the catalogue build and the resolver. */
module Scenarios {
  import opened Wrappers
  import opened Text
  import opened AssocList
  import opened FontDescriptions
  import opened Fonts
  import opened Catalogue
  import opened Resolver

  /**
    A family of one file answers every request with that file, whatever style the
    file was parsed with.
   */
  lemma SingleFileFamilyAnswersEverything(name: string, f: FontFileInfo, isBold: bool, isItalic: bool)
    ensures SelectEntry(DeserializeFontFamily(name, [f]).fontFiles, isBold, isItalic) == Some((XRegular, f.path))
  {
  }

  /**
    A family of a Regular and a Bold file (in that order): a bold request gets the
    Bold file, while a bold and italic request, lacking BoldItalic, and an italic
    request, lacking Italic, both get the Regular file.
   */
  lemma RegularAndBoldFamily(name: string, regular: FontFileInfo, bold: FontFileInfo)
    requires regular.description.style == FontDescriptions.Regular && bold.description.style == FontDescriptions.Bold
    ensures var table := DeserializeFontFamily(name, [regular, bold]).fontFiles;
            && SelectEntry(table, true, false) == Some((XBold, bold.path))
            && SelectEntry(table, true, true) == Some((XRegular, regular.path))
            && SelectEntry(table, false, true) == Some((XRegular, regular.path))
            && SelectEntry(table, false, false) == Some((XRegular, regular.path))
  {
    var files := [regular, bold];
    var table := DeserializeFontFamily(name, files).fontFiles;
    assert FirstPathWithStyle(files, XRegular) == Some(regular.path);
    assert FirstPathWithStyle(files, XBold) == Some(bold.path);
    assert FirstPathWithStyle(files, XItalic) == None;
    assert FirstPathWithStyle(files, XBoldItalic) == None;
  }

  /** A path has its own file name. */
  lemma OwnFileName(os: Platform, p: string)
    ensures SameFileName(os, p, FileName(os, p))
  {
    FileNameOfPlainName(os, FileName(os, p));
  }

  /** The file-name search finds the file name of any scanned path. */
  lemma ScannedFileIsFound(os: Platform, paths: seq<string>, p: string)
    requires p in paths
    ensures GetFontByFileName(os, paths, FileName(os, p)).Success?
  {
    var j :| 0 <= j < |paths| && paths[j] == p;
    OwnFileName(os, p);
    SameNamePathFetched(os, paths, FileName(os, p), j);
  }

  /** So does the substring search of GetFont (possibly landing on an earlier path). */
  lemma ScannedFileIsFetchable(os: Platform, paths: seq<string>, p: string)
    requires p in paths
    ensures GetFont(os, paths, FileName(os, p)).Success?
  {
    var j :| 0 <= j < |paths| && paths[j] == p;
    var name := FileName(os, p);
    FileNameOfPlainName(os, name);
    assert p[|p| - |name|..] == name;
    FoldedEndingContained(p, |p| - |name|, name);
    assert ContainsIgnoreCase(paths[j], FileName(os, name));
    ContainingPathFetched(os, paths, name, j);
  }

  /**
    Once at least one scanned file parses, the freshly built catalogue answers every
    request without error, with the file name of a scanned path or with null.
   */
  lemma BuiltCatalogueAnswers(os: Platform, paths: seq<string>, parsed: Parsed, nullIfFontNotFound: bool,
                              familyName: string, isBold: bool, isItalic: bool)
    requires exists p :: p in paths && p in parsed
    ensures var r := ResolveTypeface(os, SetupFontsFiles([], paths, parsed), nullIfFontNotFound, familyName, isBold, isItalic);
            && r.Success?
            && (r.value.Some? ==> exists p :: p in paths && p in parsed && r.value.value == FileName(os, p))
  {
    var catalogue := SetupFontsFiles([], paths, parsed);
    var p :| p in paths && p in parsed;
    assert Lower(parsed[p].family) in KeySet(catalogue);
    var r := ResolveTypeface(os, catalogue, nullIfFontNotFound, familyName, isBold, isItalic);
    if r.value.Some? {
      var e, f :| e in catalogue && f in e.1.fontFiles && r.value.value == FileName(os, f.1);
      var i :| 0 <= i < |catalogue| && catalogue[i] == e;
      assert f.1 in paths && f.1 in parsed;
    }
  }

  /** Every face the freshly built catalogue names can then be fetched. */
  lemma ResolvedFaceIsFetchable(os: Platform, paths: seq<string>, parsed: Parsed, nullIfFontNotFound: bool,
                                familyName: string, isBold: bool, isItalic: bool)
    requires exists p :: p in paths && p in parsed
    ensures var r := ResolveTypeface(os, SetupFontsFiles([], paths, parsed), nullIfFontNotFound, familyName, isBold, isItalic);
            && r.Success?
            && (r.value.Some? ==> GetFont(os, paths, r.value.value).Success?)
            && (r.value.Some? ==> GetFontByFileName(os, paths, r.value.value).Success?)
  {
    BuiltCatalogueAnswers(os, paths, parsed, nullIfFontNotFound, familyName, isBold, isItalic);
    var r := ResolveTypeface(os, SetupFontsFiles([], paths, parsed), nullIfFontNotFound, familyName, isBold, isItalic);
    if r.value.Some? {
      var p :| p in paths && p in parsed && r.value.value == FileName(os, p);
      ScannedFileIsFound(os, paths, p);
      ScannedFileIsFetchable(os, paths, p);
    }
  }

  /**
    On a catalogue built from scratch, a family that no loaded file belongs to (even
    ignoring case) is served, without the null option, the first scanned file that
    loads, whatever the style requested.
   */
  lemma UnknownFamilyServesFirstLoadedFile(os: Platform, paths: seq<string>, parsed: Parsed, k: int,
                                           familyName: string, isBold: bool, isItalic: bool)
    requires 0 <= k < |paths| && paths[k] in parsed && forall j :: 0 <= j < k ==> paths[j] !in parsed
    requires forall p :: p in paths && p in parsed ==> Lower(parsed[p].family) != Lower(familyName)
    ensures ResolveTypeface(os, SetupFontsFiles([], paths, parsed), false, familyName, isBold, isItalic)
            == Success(Some(FileName(os, paths[k])))
  {
    assert Lower(familyName) !in KeySet(SetupFontsFiles([], paths, parsed));
    LoadAllHead(paths, parsed, k);
    FirstInstalledFamily(paths, parsed);
  }
}
