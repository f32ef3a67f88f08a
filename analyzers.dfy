/**
 * SetRoslynAnalyzers, minus the filesystem: the analyzer folder's files become references
 * in one new ItemGroup, and rule-set files set the CodeAnalysisRuleSet property.
 */
module RoslynAnalyzers {
  import opened Wrappers
  import opened Xml
  import opened ProjectProperties

  /** Separators that end the search for an extension (Windows: `\`, `/` and the volume separator `:`). */
  predicate IsSeparator(c: char) {
    c == '\\' || c == '/' || c == ':'
  }

  predicate EndsWith(s: string, suffix: string) {
    |suffix| <= |s| && s[|s| - |suffix|..] == suffix
  }

  /**
   * `FileInfo.Extension`: from the last `.` of the last path segment to the end, or "" when
   * the last segment has no `.`. The contract below only bounds the shape of the result;
   * ExtensionIsSuffix pins it down for the extensions the classification compares with.
   * A path ending in `.` gives "." here, where full-path normalisation would first drop
   * the trailing dot; no compared extension is affected.
   */
  function Extension(path: string): (ext: string)
    ensures ext == "" || (ext[0] == '.' && EndsWith(path, ext))
    ensures forall j | 1 <= j < |ext| :: ext[j] != '.' && !IsSeparator(ext[j])
  {
    ExtensionScan(path, |path|)
  }

  /** The search for the extension, having passed `path[i..]` without meeting `.` or a separator. */
  function ExtensionScan(path: string, i: nat): (ext: string)
    requires i <= |path|
    requires forall j | i <= j < |path| :: path[j] != '.' && !IsSeparator(path[j])
    ensures ext == "" || (ext[0] == '.' && EndsWith(path, ext))
    ensures forall j | 1 <= j < |ext| :: ext[j] != '.' && !IsSeparator(ext[j])
    decreases i
  {
    if i == 0 then ""
    else if path[i - 1] == '.' then path[i - 1..]
    else if IsSeparator(path[i - 1]) then ""
    else ExtensionScan(path, i - 1)
  }

  /** Characters that are neither `.` nor a separator are passed over. */
  lemma {:induction false} ExtensionScanSkips(path: string, i: nat, d: nat)
    requires d < i <= |path|
    requires forall j | d < j < |path| :: path[j] != '.' && !IsSeparator(path[j])
    ensures ExtensionScan(path, i) == ExtensionScan(path, d + 1)
    decreases i
  {
    if i > d + 1 {
      ExtensionScanSkips(path, i - 1, d);
    }
  }

  /**
   * For an extension made of one `.` followed by characters that are neither `.` nor a
   * separator, comparing `FileInfo.Extension` with it is an ordinal suffix test.
   */
  lemma ExtensionIsSuffix(path: string, ext: string)
    requires |ext| >= 1 && ext[0] == '.'
    requires forall j | 1 <= j < |ext| :: ext[j] != '.' && !IsSeparator(ext[j])
    ensures Extension(path) == ext <==> EndsWith(path, ext)
  {
    if EndsWith(path, ext) {
      var d := |path| - |ext|;
      assert forall j | d < j < |path| :: path[j] == ext[j - d];
      ExtensionScanSkips(path, |path|, d);
    }
  }

  /** What a file of the analyzer folder contributes, by its case-sensitive extension. */
  datatype AssetKind = AnalyzerBinary | AdditionalFile | RuleSetFile | Unrelated

  function Classify(file: string): AssetKind {
    var ext := Extension(file);
    if ext == ".dll" then AnalyzerBinary
    else if ext == ".json" then AdditionalFile
    else if ext == ".ruleset" then RuleSetFile
    else Unrelated
  }

  /** The classification is a case-sensitive suffix test on the file name. */
  lemma ClassifyBySuffix(file: string)
    ensures Classify(file) == AnalyzerBinary <==> EndsWith(file, ".dll")
    ensures Classify(file) == AdditionalFile <==> EndsWith(file, ".json")
    ensures Classify(file) == RuleSetFile <==> EndsWith(file, ".ruleset")
    ensures Classify(file) == Unrelated <==>
      !EndsWith(file, ".dll") && !EndsWith(file, ".json") && !EndsWith(file, ".ruleset")
  {
    ExtensionIsSuffix(file, ".dll");
    ExtensionIsSuffix(file, ".json");
    ExtensionIsSuffix(file, ".ruleset");
  }

  /**
   * A full path can be made relative when `Substring(|cwd| + 1)` is in range and leaves a
   * non-empty path (`new FileInfo("")` throws).
   */
  predicate Trimmable(full: string, cwd: string) {
    |cwd| + 1 < |full|
  }

  /** `full.Substring(cwd.Length + 1)`: drops the working directory and one separator, unchecked. */
  function RelativePath(full: string, cwd: string): (rel: string)
    requires |cwd| + 1 <= |full|
    ensures |rel| == |full| - |cwd| - 1
    ensures full == full[..|cwd| + 1] + rel
  {
    full[|cwd| + 1..]
  }

  function RelativePaths(fulls: seq<string>, cwd: string): (rels: seq<string>)
    requires forall i | 0 <= i < |fulls| :: Trimmable(fulls[i], cwd)
    ensures |rels| == |fulls|
    ensures forall i | 0 <= i < |fulls| :: Trimmable(fulls[i], cwd) && rels[i] == RelativePath(fulls[i], cwd)
    ensures forall i | 0 <= i < |fulls| :: |rels[i]| == |fulls[i]| - |cwd| - 1 > 0
    ensures forall i | 0 <= i < |fulls| :: fulls[i] == fulls[i][..|cwd| + 1] + rels[i]
  {
    if fulls == [] then []
    else
      assert Trimmable(fulls[0], cwd);
      [RelativePath(fulls[0], cwd)] + RelativePaths(fulls[1..], cwd)
  }

  /** Making one more full path relative extends the relative paths by one. */
  lemma RelativePathsSnoc(fulls: seq<string>, cwd: string, i: nat)
    requires i < |fulls|
    requires forall j | 0 <= j <= i :: Trimmable(fulls[j], cwd)
    ensures RelativePaths(fulls[..i + 1], cwd) == RelativePaths(fulls[..i], cwd) + [RelativePath(fulls[i], cwd)]
  {
    assert fulls[..i + 1][..i] == fulls[..i];
  }

  /** `<Analyzer Include="file"/>` or `<AdditionalFiles Include="file"/>`; the attribute has no namespace. */
  function Reference(ns: string, kind: string, file: string): Element {
    Element(XName(ns, kind), [Attribute(XName("", "Include"), file)], [], "")
  }

  /** The references one file adds to the ItemGroup. */
  function ItemsOf(ns: string, file: string): seq<Element> {
    match Classify(file)
    case AnalyzerBinary => [Reference(ns, "Analyzer", file)]
    case AdditionalFile => [Reference(ns, "AdditionalFiles", file)]
    case _ => []
  }

  /** The ItemGroup's children after the loop has seen `files`. */
  function ItemsFor(ns: string, files: seq<string>): seq<Element> {
    if files == [] then [] else ItemsFor(ns, files[..|files| - 1]) + ItemsOf(ns, files[|files| - 1])
  }

  function ItemGroup(ns: string, items: seq<Element>): Element {
    Element(XName(ns, "ItemGroup"), [], items, "")
  }

  /** The updater `existing => file`. */
  function ReplaceWith(file: string): string -> string {
    (existing: string) => file
  }

  /** The project after the rule-set files among `files` have each run set-or-update. */
  function ApplyRulesets(root: Element, ns: string, files: seq<string>): Element {
    if files == [] then root
    else
      var prev := ApplyRulesets(root, ns, files[..|files| - 1]);
      var file := files[|files| - 1];
      if Classify(file) == RuleSetFile then SetOrUpdated(prev, ns, "CodeAnalysisRuleSet", ReplaceWith(file))
      else prev
  }

  lemma ApplyRulesetsSnoc(root: Element, ns: string, files: seq<string>, file: string)
    ensures ApplyRulesets(root, ns, files + [file]) ==
      if Classify(file) == RuleSetFile
      then SetOrUpdated(ApplyRulesets(root, ns, files), ns, "CodeAnalysisRuleSet", ReplaceWith(file))
      else ApplyRulesets(root, ns, files)
  {
    assert (files + [file])[..|files|] == files;
  }

  lemma ItemsForSnoc(ns: string, files: seq<string>, file: string)
    ensures ItemsFor(ns, files + [file]) == ItemsFor(ns, files) + ItemsOf(ns, file)
  {
    assert (files + [file])[..|files|] == files;
  }

  /**
   * One step of SetRoslynAnalyzers: the next relative path adds exactly its own references
   * to the ItemGroup and, for a rule set, runs set-or-update of CodeAnalysisRuleSet once more.
   */
  lemma InjectStep(root: Element, ns: string, itemGroup: Element, files: seq<string>, file: string)
    requires itemGroup == ItemGroup(ns, ItemsFor(ns, files))
    ensures ItemGroup(ns, ItemsFor(ns, files + [file])) ==
      match Classify(file)
      case AnalyzerBinary => AppendChild(itemGroup, Reference(ns, "Analyzer", file))
      case AdditionalFile => AppendChild(itemGroup, Reference(ns, "AdditionalFiles", file))
      case _ => itemGroup
    ensures ApplyRulesets(root, ns, files + [file]) ==
      if Classify(file) == RuleSetFile
      then SetOrUpdated(ApplyRulesets(root, ns, files), ns, "CodeAnalysisRuleSet", ReplaceWith(file))
      else ApplyRulesets(root, ns, files)
  {
    ItemsForSnoc(ns, files, file);
    ApplyRulesetsSnoc(root, ns, files, file);
  }

  /** The reference definition of a completed SetRoslynAnalyzers over the relative paths `files`. */
  function Injected(root: Element, ns: string, files: seq<string>): Element {
    AppendChild(ApplyRulesets(root, ns, files), ItemGroup(ns, ItemsFor(ns, files)))
  }

  // ---------------------------------------------------------------------------
  // The ItemGroup.

  predicate IsReference(file: string) {
    Classify(file) == AnalyzerBinary || Classify(file) == AdditionalFile
  }

  /** The referenced files, in enumeration order. */
  function Referenced(files: seq<string>): seq<string> {
    if files == [] then []
    else (if IsReference(files[0]) then [files[0]] else []) + Referenced(files[1..])
  }

  /** The item of a referenced file: `Analyzer` for a `.dll`, `AdditionalFiles` otherwise. */
  function ReferenceTo(ns: string, file: string): Element {
    Reference(ns, if Classify(file) == AnalyzerBinary then "Analyzer" else "AdditionalFiles", file)
  }

  function ReferencesTo(ns: string, files: seq<string>): seq<Element> {
    if files == [] then [] else [ReferenceTo(ns, files[0])] + ReferencesTo(ns, files[1..])
  }

  function CountKind(files: seq<string>, kind: AssetKind): nat {
    if files == [] then 0
    else (if Classify(files[0]) == kind then 1 else 0) + CountKind(files[1..], kind)
  }

  lemma {:induction false} ReferencedCount(files: seq<string>)
    ensures |Referenced(files)| == CountKind(files, AnalyzerBinary) + CountKind(files, AdditionalFile)
  {
    if files != [] {
      ReferencedCount(files[1..]);
    }
  }

  /** One item per referenced file. */
  lemma {:induction false} ReferencesToLength(ns: string, files: seq<string>)
    ensures |ReferencesTo(ns, files)| == |files|
  {
    if files != [] {
      ReferencesToLength(ns, files[1..]);
    }
  }

  /** The ItemGroup holds as many items as there are `.dll` and `.json` files. */
  lemma ItemCount(ns: string, files: seq<string>)
    ensures |ItemsFor(ns, files)| == CountKind(files, AnalyzerBinary) + CountKind(files, AdditionalFile)
  {
    ItemsAreReferencedFiles(ns, files);
    ReferencedCount(files);
    ReferencesToLength(ns, Referenced(files));
  }

  lemma {:induction false} ItemsForConcat(ns: string, a: seq<string>, b: seq<string>)
    ensures ItemsFor(ns, a + b) == ItemsFor(ns, a) + ItemsFor(ns, b)
    decreases |b|
  {
    if b == [] {
      assert a + b == a;
    } else {
      assert (a + b)[..|a + b| - 1] == a + b[..|b| - 1];
      ItemsForConcat(ns, a, b[..|b| - 1]);
    }
  }

  /**
   * The ItemGroup holds one reference per `.dll` or `.json` file and nothing else, in
   * enumeration order: `Analyzer` for a `.dll`, `AdditionalFiles` for a `.json`, each with
   * `Include` set to the file's path.
   */
  lemma {:induction false} ItemsAreReferencedFiles(ns: string, files: seq<string>)
    ensures ItemsFor(ns, files) == ReferencesTo(ns, Referenced(files))
  {
    if files != [] {
      var f, rest := files[0], files[1..];
      var own: seq<string> := if IsReference(f) then [f] else [];
      assert ItemsFor(ns, files) == ReferencesTo(ns, own) + ItemsFor(ns, rest) by {
        assert files == [f] + rest;
        ItemsForCons(ns, f, rest);
      }
      ItemsAreReferencedFiles(ns, rest);
      ReferencesToConcat(ns, own, Referenced(rest));
    }
  }

  /** The first file contributes its own references, ahead of the rest. */
  lemma ItemsForCons(ns: string, f: string, rest: seq<string>)
    ensures ItemsFor(ns, [f] + rest) == ReferencesTo(ns, if IsReference(f) then [f] else []) + ItemsFor(ns, rest)
  {
    ItemsForConcat(ns, [f], rest);
    ItemsForSingle(ns, f);
    ItemsOfReferences(ns, f);
  }

  lemma ItemsForSingle(ns: string, f: string)
    ensures ItemsFor(ns, [f]) == ItemsOf(ns, f)
  {
    assert [f][..0] == [];
  }

  lemma ItemsOfReferences(ns: string, file: string)
    ensures ItemsOf(ns, file) == ReferencesTo(ns, if IsReference(file) then [file] else [])
  {
    if IsReference(file) {
      assert [file][1..] == [];
    }
  }

  lemma {:induction false} ReferencesToConcat(ns: string, a: seq<string>, b: seq<string>)
    ensures ReferencesTo(ns, a + b) == ReferencesTo(ns, a) + ReferencesTo(ns, b)
  {
    if a == [] {
      assert a + b == b;
    } else {
      assert (a + b)[1..] == a[1..] + b;
      ReferencesToConcat(ns, a[1..], b);
    }
  }

  // ---------------------------------------------------------------------------
  // CodeAnalysisRuleSet.

  /** The last rule-set file in enumeration order. */
  function LastRuleset(files: seq<string>): Option<string> {
    if files == [] then None
    else if Classify(files[|files| - 1]) == RuleSetFile then Some(files[|files| - 1])
    else LastRuleset(files[..|files| - 1])
  }

  /** Without rule-set files, no property is touched. */
  lemma {:induction false} NoRulesetKeepsProperties(root: Element, ns: string, files: seq<string>)
    requires LastRuleset(files).None?
    ensures ApplyRulesets(root, ns, files) == root
  {
    if files != [] {
      NoRulesetKeepsProperties(root, ns, files[..|files| - 1]);
    }
  }

  /** Each rule-set file overwrites the property: the last one wins. */
  lemma {:induction false} RulesetLastWins(root: Element, ns: string, files: seq<string>)
    requires LastRuleset(files).Some?
    ensures LookupProperty(ApplyRulesets(root, ns, files), ns, "CodeAnalysisRuleSet") == LastRuleset(files)
  {
    var init := files[..|files| - 1];
    var file := files[|files| - 1];
    if Classify(file) == RuleSetFile {
      SetOrUpdateThenLookup(ApplyRulesets(root, ns, init), ns, "CodeAnalysisRuleSet", ReplaceWith(file));
    } else {
      RulesetLastWins(root, ns, init);
    }
  }

  /** Appending an element that is not a PropertyGroup does not change any property. */
  lemma LookupIgnoresAppendedChild(root: Element, c: Element, ns: string, name: string)
    requires !IsPropertyGroup(c, ns)
    ensures FindProperty(AppendChild(root, c), ns, name) == FindProperty(root, ns, name)
    ensures LookupProperty(AppendChild(root, c), ns, name) == LookupProperty(root, ns, name)
  {
    var r := AppendChild(root, c);
    assert !HoldsProperty(c, ns, name);
    match FindProperty(root, ns, name)
    case Some((g, k)) =>
      FindPropertyIs(r, ns, name, g, k);
    case None =>
      assert forall h | 0 <= h < |r.children| :: !HoldsProperty(r.children[h], ns, name);
  }

  /** After a completed injection the last rule-set file is the CodeAnalysisRuleSet. */
  lemma InjectedRuleset(root: Element, ns: string, files: seq<string>)
    requires LastRuleset(files).Some?
    ensures LookupProperty(Injected(root, ns, files), ns, "CodeAnalysisRuleSet") == LastRuleset(files)
  {
    RulesetLastWins(root, ns, files);
    LookupIgnoresAppendedChild(ApplyRulesets(root, ns, files), ItemGroup(ns, ItemsFor(ns, files)), ns, "CodeAnalysisRuleSet");
  }
}
