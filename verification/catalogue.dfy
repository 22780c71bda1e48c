/**
  Building the font catalogue (FontResolver.SetupFontsFiles and
  FontResolver.DeserializeFontFamily): scanned paths are parsed, grouped by family
  name, turned into style tables and registered under the lower-cased family name.
 */
module Catalogue {
  import opened Wrappers
  import opened Text
  import opened AssocList
  import opened FontDescriptions
  import opened Fonts

  /**
    What the font-description parser makes of each path it can read. A path that
    is not a key is one whose description fails to load.
   */
  type Parsed = map<string, FontDescription>

  /** The catalogue: lower-cased family name to family, in insertion order. */
  type FontCatalogue = AList<string, FontFamilyModel>

  /** Every family has a usable style table and no name is registered twice. */
  predicate CatalogueWellFormed(catalogue: FontCatalogue) {
    UniqueKeys(catalogue) && forall e :: e in catalogue ==> WellFormedFamily(e.1)
  }

  // ---------------------------------------------------------------------------
  // Loading

  /** The first loop of SetupFontsFiles: every scanned path that parses, in scan order. */
  function LoadAll(paths: seq<string>, parsed: Parsed): (infos: seq<FontFileInfo>)
    ensures forall info :: info in infos ==> info.path in paths && info.path in parsed && info.description == parsed[info.path]
    ensures forall p :: p in paths && p in parsed ==> FontFileInfo(p, parsed[p]) in infos
    decreases |paths|
  {
    if |paths| == 0 then []
    else
      assert forall p :: p in paths <==> p == paths[0] || p in paths[1..];
      (if paths[0] in parsed then [FontFileInfo(paths[0], parsed[paths[0]])] else []) + LoadAll(paths[1..], parsed)
  }

  /** Loading a concatenation loads each part in order. */
  lemma {:induction false} LoadAllAppend(a: seq<string>, b: seq<string>, parsed: Parsed)
    ensures LoadAll(a + b, parsed) == LoadAll(a, parsed) + LoadAll(b, parsed)
    decreases |a|
  {
    if |a| == 0 {
      assert a + b == b;
    } else {
      assert (a + b)[1..] == a[1..] + b;
      LoadAllAppend(a[1..], b, parsed);
    }
  }

  /** The first loaded file is the first scanned path that parses. */
  lemma {:induction false} LoadAllHead(paths: seq<string>, parsed: Parsed, k: int)
    requires 0 <= k < |paths| && paths[k] in parsed && forall j :: 0 <= j < k ==> paths[j] !in parsed
    ensures |LoadAll(paths, parsed)| > 0 && LoadAll(paths, parsed)[0] == FontFileInfo(paths[k], parsed[paths[k]])
    decreases k
  {
    if k > 0 {
      assert paths[0] !in parsed;
      assert forall j :: 0 <= j < k - 1 ==> paths[1..][j] == paths[j + 1];
      LoadAllHead(paths[1..], parsed, k - 1);
    }
  }

  /** A file that fails to load is skipped and loading carries on with the rest. */
  lemma LoadFailureSkipped(before: seq<string>, p: string, after: seq<string>, parsed: Parsed)
    requires p !in parsed
    ensures LoadAll(before + [p] + after, parsed) == LoadAll(before + after, parsed)
  {
    LoadAllAppend(before + [p], after, parsed);
    LoadAllAppend(before, [p], parsed);
    LoadAllAppend(before, after, parsed);
    assert LoadAll([p], parsed) == [];
  }

  // ---------------------------------------------------------------------------
  // Grouping (LINQ GroupBy on the family name)

  function FamilyNames(infos: seq<FontFileInfo>): (names: seq<string>)
    ensures |names| == |infos|
  {
    seq(|infos|, i requires 0 <= i < |infos| => infos[i].FamilyName())
  }

  /** The index of the first occurrence of `x` in `s`, or |s| when it does not occur. */
  function FirstIndex(s: seq<string>, x: string): (k: nat)
    ensures k <= |s|
    ensures k < |s| <==> x in s
    ensures k < |s| ==> s[k] == x && forall j :: 0 <= j < k ==> s[j] != x
    decreases |s|
  {
    if |s| == 0 then 0
    else if s[0] == x then 0
    else
      var k := FirstIndex(s[1..], x);
      assert forall j :: 1 <= j < |s| ==> s[j] == s[1..][j - 1];
      k + 1
  }

  /** Appending an element leaves the first occurrences in the prefix where they were. */
  lemma {:induction false} FirstIndexAppend(s: seq<string>, x: string, y: string)
    ensures FirstIndex(s + [x], y) == if y in s then FirstIndex(s, y) else if y == x then |s| else |s| + 1
    decreases |s|
  {
    if |s| > 0 {
      assert (s + [x])[1..] == s[1..] + [x];
      assert forall z :: z in s <==> z == s[0] || z in s[1..];
      FirstIndexAppend(s[1..], x, y);
    }
  }

  /**
    The elements of `s` without repeats, in order of first appearance: each is kept
    at its first occurrence.
   */
  function Distinct(s: seq<string>): (d: seq<string>)
    ensures forall i, j :: 0 <= i < j < |d| ==> d[i] != d[j]
    ensures forall x :: x in d <==> x in s
    ensures forall i, j :: 0 <= i < j < |d| ==> FirstIndex(s, d[i]) < FirstIndex(s, d[j])
    decreases |s|
  {
    if |s| == 0 then []
    else
      var pre, x := s[..|s| - 1], s[|s| - 1];
      var prev := Distinct(pre);
      assert s == pre + [x];
      DistinctStep(pre, x, prev);
      if x in prev then prev else prev + [x]
  }

  /** One step of Distinct keeps first-appearance order. */
  lemma DistinctStep(pre: seq<string>, x: string, prev: seq<string>)
    requires forall y :: y in prev <==> y in pre
    requires forall i, j :: 0 <= i < j < |prev| ==> FirstIndex(pre, prev[i]) < FirstIndex(pre, prev[j])
    ensures var d := if x in prev then prev else prev + [x];
            forall i, j :: 0 <= i < j < |d| ==> FirstIndex(pre + [x], d[i]) < FirstIndex(pre + [x], d[j])
  {
    forall y | y in pre ensures FirstIndex(pre + [x], y) == FirstIndex(pre, y) {
      FirstIndexAppend(pre, x, y);
    }
    forall i, j | 0 <= i < j < |prev| ensures FirstIndex(pre + [x], prev[i]) < FirstIndex(pre + [x], prev[j]) {
      assert prev[i] in prev && prev[j] in prev;
    }
    if x !in prev {
      FirstIndexAppend(pre, x, x);
      var d := prev + [x];
      forall i | 0 <= i < |prev| ensures FirstIndex(pre + [x], d[i]) < FirstIndex(pre + [x], x) {
        assert prev[i] in prev;
      }
    }
  }

  /** The first element of a non-empty sequence stays first once repeats are removed. */
  lemma DistinctHead(s: seq<string>)
    requires |s| > 0
    ensures |Distinct(s)| > 0 && Distinct(s)[0] == s[0]
  {
    var d := Distinct(s);
    assert s[0] in d;
    var k :| 0 <= k < |d| && d[k] == s[0];
    assert FirstIndex(s, s[0]) == 0;
  }

  /** The first element of `s` whose case fold is `k`. */
  function FirstWith(s: seq<string>, k: string): (r: Option<string>)
    ensures r.None? <==> forall x :: x in s ==> Lower(x) != k
    ensures r.Some? ==> r.value in s && Lower(r.value) == k
    decreases |s|
  {
    if |s| == 0 then None
    else if Lower(s[0]) == k then Some(s[0])
    else
      assert forall x :: x in s <==> x == s[0] || x in s[1..];
      FirstWith(s[1..], k)
  }

  lemma {:induction false} FirstWithAppend(s: seq<string>, x: string, k: string)
    ensures FirstWith(s + [x], k) == if FirstWith(s, k).Some? then FirstWith(s, k) else if Lower(x) == k then Some(x) else None
    decreases |s|
  {
    if |s| == 0 {
      assert s + [x] == [x];
    } else {
      assert (s + [x])[1..] == s[1..] + [x];
      FirstWithAppend(s[1..], x, k);
    }
  }

  /** Removing repeats does not change which element is found first. */
  lemma {:induction false} FirstWithDistinct(s: seq<string>, k: string)
    ensures FirstWith(Distinct(s), k) == FirstWith(s, k)
    decreases |s|
  {
    if |s| > 0 {
      var pre, x := s[..|s| - 1], s[|s| - 1];
      var prev := Distinct(pre);
      assert s == pre + [x];
      assert Distinct(s) == if x in prev then prev else prev + [x];
      FirstWithDistinct(pre, k);
      FirstWithAppend(pre, x, k);
      if x in prev {
        assert x in pre;
        assert Lower(x) == k ==> FirstWith(pre, k).Some?;
      } else {
        FirstWithAppend(prev, x, k);
      }
    }
  }

  /** The files of one family, in the order they were loaded. */
  function Members(infos: seq<FontFileInfo>, family: string): (group: seq<FontFileInfo>)
    ensures forall m :: m in group ==> m in infos && m.FamilyName() == family
    ensures forall m :: m in infos && m.FamilyName() == family ==> m in group
    decreases |infos|
  {
    if |infos| == 0 then []
    else
      assert forall m :: m in infos <==> m == infos[0] || m in infos[1..];
      (if infos[0].FamilyName() == family then [infos[0]] else []) + Members(infos[1..], family)
  }

  /** One group of GroupBy: a family name and its files. */
  datatype FamilyGroup = FamilyGroup(key: string, members: seq<FontFileInfo>)

  /**
    GroupBy(info => info.FamilyName): one group per distinct family name, in order
    of first appearance, each holding that family's files in load order.
   */
  function GroupBy(infos: seq<FontFileInfo>): (groups: seq<FamilyGroup>)
    ensures forall i, j :: 0 <= i < j < |groups| ==> groups[i].key != groups[j].key
    ensures forall g :: g in groups ==> g.members == Members(infos, g.key) && |g.members| > 0
    ensures forall info :: info in infos ==> exists g :: g in groups && g.key == info.FamilyName()
    ensures forall i, j :: 0 <= i < j < |groups| ==>
              FirstIndex(FamilyNames(infos), groups[i].key) < FirstIndex(FamilyNames(infos), groups[j].key)
    ensures |infos| > 0 ==> |groups| > 0 && groups[0].key == infos[0].FamilyName()
  {
    var families := Distinct(FamilyNames(infos));
    var groups := seq(|families|, i requires 0 <= i < |families| => FamilyGroup(families[i], Members(infos, families[i])));
    GroupsNonEmpty(infos, groups);
    GroupsCover(infos, groups);
    assert |infos| > 0 ==> |groups| > 0 && groups[0].key == infos[0].FamilyName() by {
      if |infos| > 0 {
        DistinctHead(FamilyNames(infos));
      }
    }
    groups
  }

  lemma GroupsNonEmpty(infos: seq<FontFileInfo>, groups: seq<FamilyGroup>)
    requires forall g :: g in groups ==> g.key in FamilyNames(infos) && g.members == Members(infos, g.key)
    ensures forall g :: g in groups ==> |g.members| > 0
  {
    forall g | g in groups ensures |g.members| > 0 {
      var i :| 0 <= i < |infos| && FamilyNames(infos)[i] == g.key;
      assert infos[i] in infos;
    }
  }

  lemma GroupsCover(infos: seq<FontFileInfo>, groups: seq<FamilyGroup>)
    requires |groups| == |Distinct(FamilyNames(infos))|
    requires forall i :: 0 <= i < |groups| ==> groups[i].key == Distinct(FamilyNames(infos))[i]
    ensures forall info :: info in infos ==> exists g :: g in groups && g.key == info.FamilyName()
  {
    var families := Distinct(FamilyNames(infos));
    forall info | info in infos ensures exists g :: g in groups && g.key == info.FamilyName() {
      var i :| 0 <= i < |infos| && infos[i] == info;
      assert FamilyNames(infos)[i] == info.FamilyName();
      assert info.FamilyName() in FamilyNames(infos);
      assert info.FamilyName() in families;
      var j :| 0 <= j < |families| && families[j] == info.FamilyName();
      assert groups[j] in groups;
    }
  }

  /** The keys of GroupBy are the family names without repeats, in order of first appearance. */
  lemma GroupKeys(infos: seq<FontFileInfo>)
    ensures |GroupBy(infos)| == |Distinct(FamilyNames(infos))|
    ensures forall i :: 0 <= i < |GroupBy(infos)| ==> GroupBy(infos)[i].key == Distinct(FamilyNames(infos))[i]
  {
  }

  // ---------------------------------------------------------------------------
  // One family (DeserializeFontFamily)

  function StyleSet(files: seq<FontFileInfo>): set<XFontStyle> {
    set f | f in files :: GuessFontStyle(f)
  }

  /** Reference definition: the path of the first file, in group order, with style `st`. */
  function FirstPathWithStyle(files: seq<FontFileInfo>, st: XFontStyle): (r: Option<string>)
    ensures r.None? <==> st !in StyleSet(files)
    ensures r.Some? ==> exists i :: 0 <= i < |files| && files[i].path == r.value && GuessFontStyle(files[i]) == st
                                     && forall j :: 0 <= j < i ==> GuessFontStyle(files[j]) != st
    decreases |files|
  {
    if |files| == 0 then None
    else if GuessFontStyle(files[0]) == st then Some(files[0].path)
    else
      assert forall f :: f in files <==> f == files[0] || f in files[1..];
      var r := FirstPathWithStyle(files[1..], st);
      if r.Some? then
        var i :| 0 <= i < |files[1..]| && files[1..][i].path == r.value && GuessFontStyle(files[1..][i]) == st
                 && forall j :: 0 <= j < i ==> GuessFontStyle(files[1..][j]) != st;
        assert files[i + 1] == files[1..][i];
        assert forall j :: 1 <= j < i + 1 ==> files[j] == files[1..][j - 1];
        r
      else r
  }

  lemma {:induction false} FirstPathWithStyleAppend(files: seq<FontFileInfo>, f: FontFileInfo, st: XFontStyle)
    ensures FirstPathWithStyle(files + [f], st) ==
            if FirstPathWithStyle(files, st).Some? then FirstPathWithStyle(files, st)
            else if GuessFontStyle(f) == st then Some(f.path) else None
    decreases |files|
  {
    if |files| == 0 {
      assert files + [f] == [f];
    } else {
      assert (files + [f])[1..] == files[1..] + [f];
      FirstPathWithStyleAppend(files[1..], f, st);
    }
  }

  /**
    `table` is the first-wins style table of `files`: each style that occurs maps to
    the path of its first file, no other style is a key, and the table starts with
    the first file's entry.
   */
  predicate FirstWinsTable(table: AList<XFontStyle, string>, files: seq<FontFileInfo>) {
    && UniqueKeys(table)
    && KeySet(table) == StyleSet(files)
    && (forall st :: Lookup(table, st) == FirstPathWithStyle(files, st))
    && (|files| > 0 ==> |table| > 0 && table[0] == (GuessFontStyle(files[0]), files[0].path))
    && (forall e :: e in table ==> exists f :: f in files && f.path == e.1)
  }

  /** One iteration of the loop: add the file under its style unless that style is taken. */
  function AddIfNewStyle(table: AList<XFontStyle, string>, f: FontFileInfo): AList<XFontStyle, string> {
    if GuessFontStyle(f) in KeySet(table) then table else table + [(GuessFontStyle(f), f.path)]
  }

  /** The loop of DeserializeFontFamily over a family of several files. */
  function StyleTable(files: seq<FontFileInfo>): (table: AList<XFontStyle, string>)
    ensures FirstWinsTable(table, files)
    decreases |files|
  {
    if |files| == 0 then []
    else
      var pre, last := files[..|files| - 1], files[|files| - 1];
      assert files == pre + [last];
      var t := StyleTable(pre);
      StyleTableStep(pre, last, t);
      AddIfNewStyle(t, last)
  }

  /** One iteration keeps the table first-wins. */
  lemma StyleTableStep(pre: seq<FontFileInfo>, last: FontFileInfo, t: AList<XFontStyle, string>)
    requires FirstWinsTable(t, pre)
    ensures FirstWinsTable(AddIfNewStyle(t, last), pre + [last])
  {
    StepKeys(pre, last, t);
    StepLookup(pre, last, t);
    StepShape(pre, last, t);
  }

  lemma StepKeys(pre: seq<FontFileInfo>, last: FontFileInfo, t: AList<XFontStyle, string>)
    requires FirstWinsTable(t, pre)
    ensures KeySet(AddIfNewStyle(t, last)) == StyleSet(pre + [last])
  {
    var st := GuessFontStyle(last);
    var r := AddIfNewStyle(t, last);
    assert forall f :: f in pre + [last] <==> f in pre || f == last;
    assert StyleSet(pre + [last]) == StyleSet(pre) + {st};
    if st !in KeySet(t) {
      forall i | 0 <= i < |r| ensures r[i].0 in KeySet(t) + {st} {
        if i < |t| { assert r[i] == t[i]; }
      }
      assert r[|t|].0 == st;
      forall k | k in KeySet(t) ensures k in KeySet(r) {
        var i :| 0 <= i < |t| && t[i].0 == k;
        assert r[i] == t[i];
      }
    }
  }

  lemma StepLookup(pre: seq<FontFileInfo>, last: FontFileInfo, t: AList<XFontStyle, string>)
    requires FirstWinsTable(t, pre)
    ensures forall x :: Lookup(AddIfNewStyle(t, last), x) == FirstPathWithStyle(pre + [last], x)
  {
    var st := GuessFontStyle(last);
    var r := AddIfNewStyle(t, last);
    forall x ensures Lookup(r, x) == FirstPathWithStyle(pre + [last], x) {
      FirstPathWithStyleAppend(pre, last, x);
      if st !in KeySet(t) {
        LookupAppend(t, [(st, last.path)], x);
      }
    }
  }

  lemma StepShape(pre: seq<FontFileInfo>, last: FontFileInfo, t: AList<XFontStyle, string>)
    requires FirstWinsTable(t, pre)
    ensures UniqueKeys(AddIfNewStyle(t, last))
    ensures |pre + [last]| > 0 ==> |AddIfNewStyle(t, last)| > 0 && AddIfNewStyle(t, last)[0] == (GuessFontStyle((pre + [last])[0]), (pre + [last])[0].path)
    ensures forall e :: e in AddIfNewStyle(t, last) ==> exists f :: f in pre + [last] && f.path == e.1
  {
    var st := GuessFontStyle(last);
    var r := AddIfNewStyle(t, last);
    var files := pre + [last];
    assert forall f :: f in pre ==> f in files;
    assert last in files;
    if |pre| > 0 {
      assert files[0] == pre[0];
    }
    if st !in KeySet(t) {
      assert forall i :: 0 <= i < |t| ==> t[i] in t;
      assert forall e :: e in r ==> e in t || e == (st, last.path);
    }
  }

  /**
    DeserializeFontFamily: a family of exactly one file registers that file as
    Regular whatever its parsed style; otherwise each file goes under its guessed
    style and the first file of each style wins.
   */
  function DeserializeFontFamily(name: string, files: seq<FontFileInfo>): (family: FontFamilyModel)
    ensures family.name == name
    ensures UniqueKeys(family.fontFiles)
    ensures |files| == 1 ==> KeySet(family.fontFiles) == {XRegular} && Lookup(family.fontFiles, XRegular) == Some(files[0].path)
    ensures |files| != 1 ==> FirstWinsTable(family.fontFiles, files)
    ensures |files| > 0 ==> WellFormedFamily(family)
    ensures |files| > 0 ==> |family.fontFiles| > 0 && family.fontFiles[0].1 == files[0].path
    ensures forall e :: e in family.fontFiles ==> exists f :: f in files && f.path == e.1
  {
    if |files| == 1 then
      var table := [(XRegular, files[0].path)];
      assert files[0] in files;
      assert KeySet(table) == {XRegular} by { assert table[0].0 == XRegular; }
      FontFamilyModel(name, table)
    else
      FontFamilyModel(name, StyleTable(files))
  }

  /** In a family of several files the first registered style is the first file's. */
  lemma FirstRegisteredStyle(name: string, files: seq<FontFileInfo>)
    requires |files| > 1
    ensures DeserializeFontFamily(name, files).fontFiles[0] == (GuessFontStyle(files[0]), files[0].path)
  {
  }

  // ---------------------------------------------------------------------------
  // Registration (the second loop of SetupFontsFiles)

  /** Reference definition: the family registered under `k` is built from the first group whose name folds to `k`. */
  function FamilyFor(groups: seq<FamilyGroup>, k: string): (r: Option<FontFamilyModel>)
    ensures r.None? <==> forall g :: g in groups ==> Lower(g.key) != k
    decreases |groups|
  {
    if |groups| == 0 then None
    else if Lower(groups[0].key) == k then Some(DeserializeFontFamily(groups[0].key, groups[0].members))
    else
      assert forall g :: g in groups <==> g == groups[0] || g in groups[1..];
      FamilyFor(groups[1..], k)
  }

  function FoldedKeys(groups: seq<FamilyGroup>): set<string> {
    set g | g in groups :: Lower(g.key)
  }

  /** The lower-cased group names, in group order. */
  function FoldedNames(groups: seq<FamilyGroup>): seq<string> {
    seq(|groups|, i requires 0 <= i < |groups| => Lower(groups[i].key))
  }

  lemma FirstIndexCons(a: string, t: seq<string>, y: string)
    ensures FirstIndex([a] + t, y) == if y == a then 0 else 1 + FirstIndex(t, y)
  {
    assert ([a] + t)[1..] == t;
  }

  /**
    One iteration of the registration loop: Dictionary.Add of the group's family
    under its lower-cased name, where a failing Add (the name is taken) is caught
    and the catalogue stays as it was.
   */
  function AddOrSkip(catalogue: FontCatalogue, g: FamilyGroup): (r: FontCatalogue)
    ensures catalogue <= r
    ensures KeySet(r) == KeySet(catalogue) + {Lower(g.key)}
    ensures Lower(g.key) in KeySet(catalogue) ==> r == catalogue
    ensures Lower(g.key) !in KeySet(catalogue) ==> Lookup(r, Lower(g.key)) == Some(DeserializeFontFamily(g.key, g.members))
    ensures forall k :: k != Lower(g.key) ==> Lookup(r, k) == Lookup(catalogue, k)
    ensures UniqueKeys(catalogue) ==> UniqueKeys(r)
  {
    match Add(catalogue, Lower(g.key), DeserializeFontFamily(g.key, g.members))
    case Some(c) => c
    case None => catalogue
  }

  /**
    `r` is what registering `groups` into `catalogue` must give: the old catalogue
    is a prefix and keeps its entries; the new names are the folded group names;
    an unused name gets the family of the first group that folds to it; every
    added entry is one group's family under a name not used before; and the added
    entries come in the order their names first occur among the groups.
   */
  ghost predicate RegisteredFrom(catalogue: FontCatalogue, groups: seq<FamilyGroup>, r: FontCatalogue) {
    && catalogue <= r
    && (UniqueKeys(catalogue) ==> UniqueKeys(r))
    && KeySet(r) == KeySet(catalogue) + FoldedKeys(groups)
    && (forall k :: k in KeySet(catalogue) ==> Lookup(r, k) == Lookup(catalogue, k))
    && (forall k :: k !in KeySet(catalogue) ==> Lookup(r, k) == FamilyFor(groups, k))
    && (forall i :: |catalogue| <= i < |r| ==>
          exists g :: g in groups && r[i] == (Lower(g.key), DeserializeFontFamily(g.key, g.members)))
    && (forall i :: |catalogue| <= i < |r| ==> r[i].0 !in KeySet(catalogue))
    && (forall i, j :: |catalogue| <= i < j < |r| ==>
          FirstIndex(FoldedNames(groups), r[i].0) < FirstIndex(FoldedNames(groups), r[j].0))
  }

  /** The registration loop of SetupFontsFiles. */
  function Register(catalogue: FontCatalogue, groups: seq<FamilyGroup>): (r: FontCatalogue)
    ensures RegisteredFrom(catalogue, groups, r)
    decreases |groups|
  {
    if |groups| == 0 then catalogue
    else
      var next := AddOrSkip(catalogue, groups[0]);
      var r := Register(next, groups[1..]);
      RegisterStep(catalogue, groups, r);
      r
  }

  lemma RegisterStep(catalogue: FontCatalogue, groups: seq<FamilyGroup>, r: FontCatalogue)
    requires |groups| > 0
    requires RegisteredFrom(AddOrSkip(catalogue, groups[0]), groups[1..], r)
    ensures RegisteredFrom(catalogue, groups, r)
  {
    RegisterStepKeys(catalogue, groups, r);
    RegisterStepLookup(catalogue, groups, r);
    RegisterStepEntries(catalogue, groups, r);
    RegisterStepFresh(catalogue, groups, r);
    RegisterStepOrdered(catalogue, groups, r);
  }

  lemma RegisterStepOrdered(catalogue: FontCatalogue, groups: seq<FamilyGroup>, r: FontCatalogue)
    requires |groups| > 0
    requires RegisteredFrom(AddOrSkip(catalogue, groups[0]), groups[1..], r)
    ensures forall i, j :: |catalogue| <= i < j < |r| ==>
              FirstIndex(FoldedNames(groups), r[i].0) < FirstIndex(FoldedNames(groups), r[j].0)
  {
    var next := AddOrSkip(catalogue, groups[0]);
    RegisterStepFresh(catalogue, groups, r);
    AddOrSkipCases(catalogue, groups[0]);
    assert |next| <= |catalogue| + 1;
    RegisterStepOrder(groups, r, |catalogue|, |next|);
  }

  lemma AddOrSkipCases(catalogue: FontCatalogue, g: FamilyGroup)
    ensures Lower(g.key) !in KeySet(catalogue) ==>
              AddOrSkip(catalogue, g) == catalogue + [(Lower(g.key), DeserializeFontFamily(g.key, g.members))]
  {
  }

  lemma RegisterStepKeys(catalogue: FontCatalogue, groups: seq<FamilyGroup>, r: FontCatalogue)
    requires |groups| > 0
    requires RegisteredFrom(AddOrSkip(catalogue, groups[0]), groups[1..], r)
    ensures catalogue <= r
    ensures UniqueKeys(catalogue) ==> UniqueKeys(r)
    ensures KeySet(r) == KeySet(catalogue) + FoldedKeys(groups)
  {
    var g := groups[0];
    AddOrSkipCases(catalogue, g);
    assert forall h :: h in groups <==> h == g || h in groups[1..];
    assert FoldedKeys(groups) == {Lower(g.key)} + FoldedKeys(groups[1..]);
    assert Lower(g.key) in KeySet(AddOrSkip(catalogue, g));
  }

  lemma RegisterStepLookup(catalogue: FontCatalogue, groups: seq<FamilyGroup>, r: FontCatalogue)
    requires |groups| > 0
    requires RegisteredFrom(AddOrSkip(catalogue, groups[0]), groups[1..], r)
    ensures forall k :: k in KeySet(catalogue) ==> Lookup(r, k) == Lookup(catalogue, k)
    ensures forall k :: k !in KeySet(catalogue) ==> Lookup(r, k) == FamilyFor(groups, k)
  {
    var g := groups[0];
    var next := AddOrSkip(catalogue, g);
    AddOrSkipCases(catalogue, g);
    assert Lower(g.key) in KeySet(next);
    forall k | k !in KeySet(catalogue) ensures Lookup(r, k) == FamilyFor(groups, k) {
      if k == Lower(g.key) {
        assert Lookup(r, k) == Lookup(next, k);
      }
    }
  }

  lemma RegisterStepEntries(catalogue: FontCatalogue, groups: seq<FamilyGroup>, r: FontCatalogue)
    requires |groups| > 0
    requires RegisteredFrom(AddOrSkip(catalogue, groups[0]), groups[1..], r)
    ensures forall i :: |catalogue| <= i < |r| ==>
              exists g :: g in groups && r[i] == (Lower(g.key), DeserializeFontFamily(g.key, g.members))
  {
    var g := groups[0];
    var next := AddOrSkip(catalogue, g);
    AddOrSkipCases(catalogue, g);
    assert forall h :: h in groups[1..] ==> h in groups;
    forall i | |catalogue| <= i < |r|
      ensures exists h :: h in groups && r[i] == (Lower(h.key), DeserializeFontFamily(h.key, h.members))
    {
      if i < |next| {
        assert r[i] == next[i];
        assert g in groups;
      }
    }
  }

  lemma RegisterStepFresh(catalogue: FontCatalogue, groups: seq<FamilyGroup>, r: FontCatalogue)
    requires |groups| > 0
    requires RegisteredFrom(AddOrSkip(catalogue, groups[0]), groups[1..], r)
    ensures forall i :: |catalogue| <= i < |r| ==> r[i].0 !in KeySet(catalogue)
    ensures forall i :: |AddOrSkip(catalogue, groups[0])| <= i < |r| ==> r[i].0 != Lower(groups[0].key)
    ensures forall i :: |catalogue| <= i < |AddOrSkip(catalogue, groups[0])| ==> r[i].0 == Lower(groups[0].key)
  {
    var next := AddOrSkip(catalogue, groups[0]);
    AddOrSkipCases(catalogue, groups[0]);
    forall i | |catalogue| <= i < |next| ensures r[i] == next[i] {
    }
  }

  /**
    The order clause for one more group: `r[c..n]` holds at most the first group's
    name, and the entries from `n` on are ordered by the remaining groups.
   */
  lemma RegisterStepOrder(groups: seq<FamilyGroup>, r: FontCatalogue, c: nat, n: nat)
    requires |groups| > 0 && c <= n <= c + 1 && n <= |r|
    requires forall i :: c <= i < n ==> r[i].0 == Lower(groups[0].key)
    requires forall i :: n <= i < |r| ==> r[i].0 != Lower(groups[0].key)
    requires forall i, j :: n <= i < j < |r| ==>
               FirstIndex(FoldedNames(groups[1..]), r[i].0) < FirstIndex(FoldedNames(groups[1..]), r[j].0)
    ensures forall i, j :: c <= i < j < |r| ==>
              FirstIndex(FoldedNames(groups), r[i].0) < FirstIndex(FoldedNames(groups), r[j].0)
  {
    var kg, rest := Lower(groups[0].key), groups[1..];
    assert FoldedNames(groups) == [kg] + FoldedNames(rest);
    forall i, j | c <= i < j < |r|
      ensures FirstIndex(FoldedNames(groups), r[i].0) < FirstIndex(FoldedNames(groups), r[j].0)
    {
      FirstIndexCons(kg, FoldedNames(rest), r[i].0);
      FirstIndexCons(kg, FoldedNames(rest), r[j].0);
    }
  }

  /** A first group with an unused name is registered right after the old catalogue. */
  lemma RegisterHead(catalogue: FontCatalogue, groups: seq<FamilyGroup>)
    requires |groups| > 0 && Lower(groups[0].key) !in KeySet(catalogue)
    ensures |Register(catalogue, groups)| > |catalogue|
    ensures Register(catalogue, groups)[|catalogue|] == (Lower(groups[0].key), DeserializeFontFamily(groups[0].key, groups[0].members))
  {
    AddOrSkipCases(catalogue, groups[0]);
    var next := AddOrSkip(catalogue, groups[0]);
    assert next[|catalogue|] == (Lower(groups[0].key), DeserializeFontFamily(groups[0].key, groups[0].members));
  }

  /** Register keeps well-formedness when every group it adds is non-empty. */
  lemma {:induction false} RegisterWellFormed(catalogue: FontCatalogue, groups: seq<FamilyGroup>)
    requires CatalogueWellFormed(catalogue)
    requires forall g :: g in groups ==> |g.members| > 0
    ensures CatalogueWellFormed(Register(catalogue, groups))
  {
    var r := Register(catalogue, groups);
    forall e | e in r ensures WellFormedFamily(e.1) {
      var i :| 0 <= i < |r| && r[i] == e;
      if i < |catalogue| {
        assert catalogue[i] == e;
      } else {
        var g :| g in groups && r[i] == (Lower(g.key), DeserializeFontFamily(g.key, g.members));
      }
    }
  }

  // ---------------------------------------------------------------------------
  // The whole build

  /** SetupFontsFiles, adding to the families already `installed`. */
  function SetupFontsFiles(installed: FontCatalogue, paths: seq<string>, parsed: Parsed): (catalogue: FontCatalogue)
    ensures installed <= catalogue
    ensures UniqueKeys(installed) ==> UniqueKeys(catalogue)
    ensures KeySet(catalogue) == KeySet(installed) + set p | p in paths && p in parsed :: Lower(parsed[p].family)
    ensures forall k :: k in KeySet(installed) ==> Lookup(catalogue, k) == Lookup(installed, k)
    ensures CatalogueWellFormed(installed) ==> CatalogueWellFormed(catalogue)
    ensures forall i, e :: |installed| <= i < |catalogue| && e in catalogue[i].1.fontFiles ==> e.1 in paths && e.1 in parsed
  {
    var groups := GroupBy(LoadAll(paths, parsed));
    var catalogue := Register(installed, groups);
    LoadedFamilyKeys(paths, parsed);
    assert CatalogueWellFormed(installed) ==> CatalogueWellFormed(catalogue) by {
      if CatalogueWellFormed(installed) {
        RegisterWellFormed(installed, groups);
      }
    }
    RegisteredFilesScanned(installed, paths, parsed);
    catalogue
  }

  /** The folded group names are the folded family names of the files that load. */
  lemma LoadedFamilyKeys(paths: seq<string>, parsed: Parsed)
    ensures FoldedKeys(GroupBy(LoadAll(paths, parsed))) == set p | p in paths && p in parsed :: Lower(parsed[p].family)
  {
    var infos := LoadAll(paths, parsed);
    var groups := GroupBy(infos);
    forall k | k in FoldedKeys(groups) ensures k in set p | p in paths && p in parsed :: Lower(parsed[p].family) {
      var g :| g in groups && Lower(g.key) == k;
      assert g.members[0] in g.members;
    }
    forall p | p in paths && p in parsed ensures Lower(parsed[p].family) in FoldedKeys(groups) {
      assert FontFileInfo(p, parsed[p]) in infos;
    }
  }

  /** Every file of a newly registered family is a scanned path that loads. */
  lemma RegisteredFilesScanned(installed: FontCatalogue, paths: seq<string>, parsed: Parsed)
    ensures var catalogue := Register(installed, GroupBy(LoadAll(paths, parsed)));
            forall i, e :: |installed| <= i < |catalogue| && e in catalogue[i].1.fontFiles ==> e.1 in paths && e.1 in parsed
  {
    var groups := GroupBy(LoadAll(paths, parsed));
    var catalogue := Register(installed, groups);
    forall i, e | |installed| <= i < |catalogue| && e in catalogue[i].1.fontFiles ensures e.1 in paths && e.1 in parsed {
      RegisteredEntry(installed, groups, i);
      var g :| g in groups && catalogue[i] == (Lower(g.key), DeserializeFontFamily(g.key, g.members));
      GroupFilesScanned(paths, parsed, g, e);
    }
  }

  /** An entry added by Register is some group's family. */
  lemma RegisteredEntry(installed: FontCatalogue, groups: seq<FamilyGroup>, i: int)
    requires |installed| <= i < |Register(installed, groups)|
    ensures exists g :: g in groups && Register(installed, groups)[i] == (Lower(g.key), DeserializeFontFamily(g.key, g.members))
  {
  }

  /** Every path in the table of a loaded group is a scanned path that loads. */
  lemma GroupFilesScanned(paths: seq<string>, parsed: Parsed, g: FamilyGroup, e: (XFontStyle, string))
    requires g in GroupBy(LoadAll(paths, parsed))
    requires e in DeserializeFontFamily(g.key, g.members).fontFiles
    ensures e.1 in paths && e.1 in parsed
  {
    var f :| f in g.members && f.path == e.1;
    assert f in LoadAll(paths, parsed);
  }

  /** The family GroupBy yields for a folded name is the family of the first name that folds to it. */
  lemma {:induction false} FamilyForGroups(infos: seq<FontFileInfo>, families: seq<string>, groups: seq<FamilyGroup>, k: string)
    requires |groups| == |families|
    requires forall i :: 0 <= i < |groups| ==> groups[i].key == families[i] && groups[i].members == Members(infos, families[i])
    ensures FamilyFor(groups, k) == match FirstWith(families, k)
                                    case None => None
                                    case Some(f) => Some(DeserializeFontFamily(f, Members(infos, f)))
    decreases |groups|
  {
    if |groups| > 0 && Lower(groups[0].key) != k {
      FamilyForGroups(infos, families[1..], groups[1..], k);
    }
  }

  /**
    The family registered under a fresh folded name `k`: among the loaded files whose
    family name folds to `k`, the family of the first one in scan order wins, and
    its table is built from all loaded files of exactly that family, in scan order.
   */
  lemma CatalogueEntry(installed: FontCatalogue, paths: seq<string>, parsed: Parsed, k: string)
    requires k !in KeySet(installed)
    ensures var infos := LoadAll(paths, parsed);
            Lookup(SetupFontsFiles(installed, paths, parsed), k) ==
              match FirstWith(FamilyNames(infos), k)
              case None => None
              case Some(f) => Some(DeserializeFontFamily(f, Members(infos, f)))
  {
    var infos := LoadAll(paths, parsed);
    var groups := GroupBy(infos);
    GroupKeys(infos);
    FamilyForGroups(infos, Distinct(FamilyNames(infos)), groups, k);
    FirstWithDistinct(FamilyNames(infos), k);
  }

  /**
    Built from scratch, the catalogue starts with the family of the first file that
    loads, under its lower-cased name, and that family's first entry is that file.
   */
  lemma FirstInstalledFamily(paths: seq<string>, parsed: Parsed)
    requires |LoadAll(paths, parsed)| > 0
    ensures var infos, catalogue := LoadAll(paths, parsed), SetupFontsFiles([], paths, parsed);
            && |catalogue| > 0
            && catalogue[0].0 == Lower(infos[0].FamilyName())
            && |catalogue[0].1.fontFiles| > 0
            && catalogue[0].1.fontFiles[0].1 == infos[0].path
  {
    var infos := LoadAll(paths, parsed);
    var groups := GroupBy(infos);
    var g := groups[0];
    RegisterHead([], groups);
    assert Members(infos, g.key)[0] == infos[0];
  }
}
