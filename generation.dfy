/**
 * ProjectFilesGeneration: the edits applied in place to a parsed project file. The
 * document is an object whose root the methods update; each method is proved against
 * the reference definition of its module.
 */
module ProjectFilesGeneration {
  import opened Wrappers
  import opened Xml
  import opened LangVersionStamp
  import opened ProjectProperties
  import opened RoslynAnalyzers

  /**
   * How SetRoslynAnalyzers ends: normally, or with the exception thrown for a full path
   * that cannot be made relative (`Substring` out of range, or `new FileInfo("")`). The
   * exception escapes the project-file generation handler, so the partly edited tree it
   * leaves is state inside the pass and is never saved.
   */
  datatype Outcome = Completed | UntrimmablePath(fullPath: string)

  /** Position of the first full path the enumeration cannot make relative. */
  function FirstUntrimmable(fulls: seq<string>, cwd: string): Option<nat> {
    FirstIndex(fulls, (f: string) => !Trimmable(f, cwd))
  }

  /** The root after a completed UpgradeProjectFile: analyzers first, then the language version. */
  function Upgraded(root: Element, dirExists: bool, fulls: seq<string>, cwd: string): Element
    requires dirExists ==> forall i | 0 <= i < |fulls| :: Trimmable(fulls[i], cwd)
  {
    var ns := root.name.ns;
    var injected := if dirExists then Injected(root, ns, RelativePaths(fulls, cwd)) else root;
    StampDescendants(injected, ns)
  }

  /** `XDocument`: the methods edit the tree under its root in place. */
  class ProjectDocument {
    /** `doc.Root`; None for a document without a root element. */
    var root: Option<Element>

    constructor (root: Option<Element>)
      ensures this.root == root
    {
      this.root := root;
    }

    /**
     * UpgradeProjectFile: without a root nothing happens; otherwise the analyzers are
     * injected and then the language version is stamped, both in the root's namespace. An
     * exception from the injection ends the pass before the stamping.
     */
    method UpgradeProjectFile(dirExists: bool, fulls: seq<string>, cwd: string) returns (outcome: Outcome)
      modifies this
      ensures old(root).None? ==> root == old(root) && outcome == Completed
      ensures old(root).Some? && (!dirExists || FirstUntrimmable(fulls, cwd).None?) ==>
        outcome == Completed && root == Some(Upgraded(old(root).value, dirExists, fulls, cwd))
      ensures old(root).Some? && dirExists && FirstUntrimmable(fulls, cwd).Some? ==>
        var f := FirstUntrimmable(fulls, cwd).value;
        outcome == UntrimmablePath(fulls[f]) &&
        root == Some(ApplyRulesets(old(root).value, old(root).value.name.ns, RelativePaths(fulls[..f], cwd)))
    {
      if root.None? {
        return Completed;
      }
      var ns := root.value.name.ns;
      outcome := SetRoslynAnalyzers(ns, dirExists, fulls, cwd);
      if outcome.UntrimmablePath? {
        return;
      }
      SetCSharpVersion(ns);
    }

    /**
     * SetRoslynAnalyzers over the folder's files `fulls` (full paths, in enumeration order).
     * A missing folder leaves the tree alone. Otherwise each file is made relative to `cwd`
     * and classified; references collect in a new ItemGroup, each rule-set file runs
     * set-or-update of CodeAnalysisRuleSet at once, and the ItemGroup is appended at the end.
     */
    method SetRoslynAnalyzers(ns: string, dirExists: bool, fulls: seq<string>, cwd: string) returns (outcome: Outcome)
      requires root.Some?
      modifies this
      ensures root.Some?
      ensures !dirExists ==> outcome == Completed && root == old(root)
      ensures dirExists && FirstUntrimmable(fulls, cwd).None? ==>
        outcome == Completed && root == Some(Injected(old(root).value, ns, RelativePaths(fulls, cwd)))
      ensures dirExists && FirstUntrimmable(fulls, cwd).Some? ==>
        var f := FirstUntrimmable(fulls, cwd).value;
        outcome == UntrimmablePath(fulls[f]) &&
        root == Some(ApplyRulesets(old(root).value, ns, RelativePaths(fulls[..f], cwd)))
    {
      if !dirExists {
        // The host logs a warning that the analyzer folder is missing.
        return Completed;
      }
      var itemGroup := ItemGroup(ns, []);
      var i := 0;
      ghost var rels: seq<string> := [];
      while i < |fulls|
        invariant 0 <= i <= |fulls|
        invariant root.Some?
        invariant forall j | 0 <= j < i :: Trimmable(fulls[j], cwd)
        invariant rels == RelativePaths(fulls[..i], cwd)
        invariant itemGroup == ItemGroup(ns, ItemsFor(ns, rels))
        invariant root == Some(ApplyRulesets(old(root).value, ns, rels))
      {
        if !Trimmable(fulls[i], cwd) {
          FirstIndexIs(fulls, (f: string) => !Trimmable(f, cwd), i);
          return UntrimmablePath(fulls[i]);
        }
        var file := RelativePath(fulls[i], cwd);
        InjectStep(old(root).value, ns, itemGroup, rels, file);
        if Classify(file) == AnalyzerBinary {
          itemGroup := AppendChild(itemGroup, Reference(ns, "Analyzer", file));
        }
        if Classify(file) == AdditionalFile {
          itemGroup := AppendChild(itemGroup, Reference(ns, "AdditionalFiles", file));
        }
        if Classify(file) == RuleSetFile {
          SetOrUpdateProperty(ns, "CodeAnalysisRuleSet", ReplaceWith(file));
        }
        RelativePathsSnoc(fulls, cwd, i);
        rels := rels + [file];
        i := i + 1;
      }
      assert fulls[..i] == fulls;
      root := Some(AppendChild(root.value, itemGroup));
      outcome := Completed;
    }

    /**
     * SetCSharpVersion: selects the configuration-scoped PropertyGroups among the root's
     * descendants first, then appends a LangVersion element to each in turn.
     */
    method SetCSharpVersion(ns: string)
      requires root.Some?
      modifies this
      ensures root == Some(StampDescendants(old(root).value, ns))
    {
      var nodes := ConfigGroupPaths(root.value);
      var i := 0;
      while i < |nodes|
        invariant 0 <= i <= |nodes|
        invariant root == Some(AppendAtAll(old(root).value, nodes[..i], LangVersionElement(ns)))
      {
        assert nodes[..i + 1][..i] == nodes[..i];
        root := Some(AppendAt(root.value, nodes[i], LangVersionElement(ns)));
        i := i + 1;
      }
      assert nodes[..i] == nodes;
      StampByPathsIsStamp(old(root).value, ns);
    }

    /**
     * SetOrUpdateProperty: rewrites the first definition of `name` with `updater(old value)`
     * when that differs, or adds the property with `updater("")` when there is none.
     */
    method SetOrUpdateProperty(ns: string, name: string, updater: string -> string)
      requires root.Some?
      modifies this
      ensures root == Some(SetOrUpdated(old(root).value, ns, name, updater))
    {
      var element := FindProperty(root.value, ns, name);
      if element.Some? {
        var (g, k) := element.value;
        var current := root.value.children[g].children[k];
        var result := updater(Value(current));
        if result != Value(current) {
          // The host logs the old and the new value.
          root := Some(ReplaceProperty(root.value, g, k, SetValue(current, result)));
        } else {
          // The host logs that the property is already set.
        }
      } else {
        AddProperty(ns, name, updater(""));
      }
    }

    /**
     * AddProperty: appends the property to the first unconditioned PropertyGroup, after
     * creating that group as the root's first child when there is none.
     */
    method AddProperty(ns: string, name: string, content: string)
      requires root.Some?
      modifies this
      ensures root == Some(WithProperty(old(root).value, ns, name, content))
    {
      ghost var original := root.value;
      var prop := NewProperty(ns, name, content);
      var propertyGroup := FirstUnconditionedGroup(root.value, ns);
      if propertyGroup.None? {
        root := Some(root.value.(children := [NewPropertyGroup(ns)] + root.value.children));
        propertyGroup := Some(0);
      }
      var g := propertyGroup.value;
      var group := AppendChild(root.value.children[g], prop);
      root := Some(root.value.(children := root.value.children[g := group]));
      if FirstUnconditionedGroup(original, ns).None? {
        assert root.value.children == [AppendChild(NewPropertyGroup(ns), prop)] + original.children;
      }
    }
  }

  // ---------------------------------------------------------------------------
  // The whole pass.

  /** Stamping keeps the first definition of every property other than LangVersion. */
  lemma StampKeepsProperty(root: Element, ns: string, name: string)
    requires name != "LangVersion"
    ensures LookupProperty(StampDescendants(root, ns), ns, name) == LookupProperty(root, ns, name)
  {
    var r := StampDescendants(root, ns);
    forall h | 0 <= h < |root.children|
      ensures r.children[h] == Stamped(root.children[h], ns)
      ensures HoldsProperty(r.children[h], ns, name) <==> HoldsProperty(root.children[h], ns, name)
    {
      StampAllAt(root.children, ns, h);
      StampedKeepsNames(root.children[h], ns);
    }
    match FindProperty(root, ns, name)
    case Some((g, k)) =>
      StampedKeepsNames(root.children[g], ns);
      StampAllAt(root.children[g].children, ns, k);
      FindPropertyIs(r, ns, name, g, k);
    case None =>
  }

  /** The children of a stamped node keep their names, possibly followed by a LangVersion element. */
  lemma StampedKeepsNames(e: Element, ns: string)
    ensures var s := Stamped(e, ns);
      s.name == e.name && |s.children| >= |e.children| &&
      (forall j | 0 <= j < |e.children| :: s.children[j].name == e.children[j].name) &&
      (forall j | |e.children| <= j < |s.children| :: s.children[j].name == XName(ns, "LangVersion"))
  {
    forall j | 0 <= j < |e.children| ensures Stamped(e, ns).children[j] == Stamped(e.children[j], ns) {
      StampAllAt(e.children, ns, j);
    }
  }

  /** References contain no PropertyGroup, so stamping leaves them alone. */
  lemma {:induction false} ReferencesHaveNoMatches(ns: string, files: seq<string>, base: nat)
    ensures MatchesFrom(ReferencesTo(ns, files), base) == []
  {
    if files != [] {
      var refs := ReferencesTo(ns, files);
      assert refs[1..] == ReferencesTo(ns, files[1..]);
      assert SubtreeMatches(refs[0]) == [];
      ReferencesHaveNoMatches(ns, files[1..], base + 1);
    }
  }

  /**
   * After a completed pass over an existing analyzer folder, the root's last child is the
   * new ItemGroup holding exactly the references, untouched by the stamping.
   */
  lemma UpgradeEndsWithItemGroup(root: Element, fulls: seq<string>, cwd: string)
    requires forall i | 0 <= i < |fulls| :: Trimmable(fulls[i], cwd)
    ensures var r := Upgraded(root, true, fulls, cwd);
      |r.children| >= |root.children| + 1 &&
      r.children[|r.children| - 1] == ItemGroup(root.name.ns, ItemsFor(root.name.ns, RelativePaths(fulls, cwd)))
  {
    var ns := root.name.ns;
    var rels := RelativePaths(fulls, cwd);
    var group := ItemGroup(ns, ItemsFor(ns, rels));
    var injected := Injected(root, ns, rels);
    ApplyRulesetsKeepsShape(root, ns, rels);
    ItemGroupUnstamped(ns, rels);
    assert injected.children[|injected.children| - 1] == group;
    StampAllAt(injected.children, ns, |injected.children| - 1);
  }

  /** The ItemGroup of references holds no configuration group, so stamping leaves it alone. */
  lemma ItemGroupUnstamped(ns: string, files: seq<string>)
    ensures var group := ItemGroup(ns, ItemsFor(ns, files));
      Stamped(group, ns) == group
  {
    var group := ItemGroup(ns, ItemsFor(ns, files));
    ItemsAreReferencedFiles(ns, files);
    ReferencesHaveNoMatches(ns, Referenced(files), 0);
    assert SubtreeMatches(group) == [];
    StampedWithoutMatches(group, ns);
  }

  /** Set-or-update never removes a root child and adds at most one. */
  lemma {:induction false} ApplyRulesetsKeepsShape(root: Element, ns: string, files: seq<string>)
    ensures ApplyRulesets(root, ns, files).name == root.name
    ensures |root.children| <= |ApplyRulesets(root, ns, files).children| <= |root.children| + |files|
  {
    if files != [] {
      ApplyRulesetsKeepsShape(root, ns, files[..|files| - 1]);
    }
  }

  /**
   * After a completed pass, CodeAnalysisRuleSet holds the relative path of the last
   * rule-set file of the folder.
   */
  lemma UpgradeSetsRuleset(root: Element, fulls: seq<string>, cwd: string)
    requires forall i | 0 <= i < |fulls| :: Trimmable(fulls[i], cwd)
    requires LastRuleset(RelativePaths(fulls, cwd)).Some?
    ensures LookupProperty(Upgraded(root, true, fulls, cwd), root.name.ns, "CodeAnalysisRuleSet")
         == LastRuleset(RelativePaths(fulls, cwd))
  {
    var ns := root.name.ns;
    var rels := RelativePaths(fulls, cwd);
    InjectedRuleset(root, ns, rels);
    ApplyRulesetsKeepsShape(root, ns, rels);
    StampKeepsProperty(Injected(root, ns, rels), ns, "CodeAnalysisRuleSet");
  }
}
