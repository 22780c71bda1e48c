/**
  What the font-description parser reports about a font file. The parser itself
  (binary font parsing) is outside the model; only the shape of its answer is kept.
 */
module FontDescriptions {

  /** The parser's style of a face. */
  datatype FontStyle = Regular | Bold | Italic | BoldItalic

  /** A parsed description: the culture-invariant family name and the style. */
  datatype FontDescription = FontDescription(family: string, style: FontStyle)
}

/** The font records of the resolver and the style keys of the PDF renderer. */
module Fonts {
  import opened AssocList
  import FontDescriptions

  /** The renderer's style keys; the resolver only ever produces these four. */
  datatype XFontStyle = XRegular | XBold | XItalic | XBoldItalic

  /** One scanned font file together with its parsed description. */
  datatype FontFileInfo = FontFileInfo(path: string, description: FontDescriptions.FontDescription)
  {
    function FamilyName(): string {
      description.family
    }
  }

  /** The renderer style a file's parsed style stands for; anything not bold or italic is regular. */
  function GuessFontStyle(info: FontFileInfo): (st: XFontStyle)
    ensures st == XBold <==> info.description.style == FontDescriptions.Bold
    ensures st == XItalic <==> info.description.style == FontDescriptions.Italic
    ensures st == XBoldItalic <==> info.description.style == FontDescriptions.BoldItalic
    ensures info.description.style !in {FontDescriptions.Bold, FontDescriptions.Italic, FontDescriptions.BoldItalic} <==> st == XRegular
  {
    match info.description.style
    case Bold => XBold
    case Italic => XItalic
    case BoldItalic => XBoldItalic
    case _ => XRegular
  }

  /** Two files that guess the same style were parsed with the same style. */
  lemma GuessFontStyleInjective(a: FontFileInfo, b: FontFileInfo)
    requires GuessFontStyle(a) == GuessFontStyle(b)
    ensures a.description.style == b.description.style
  {
  }

  /** A font family: its name and its table from style to font file path. */
  datatype FontFamilyModel = FontFamilyModel(name: string, fontFiles: AList<XFontStyle, string>)

  /** A family the resolver can always answer for: some style, each style once. */
  predicate WellFormedFamily(family: FontFamilyModel) {
    |family.fontFiles| > 0 && UniqueKeys(family.fontFiles)
  }
}
