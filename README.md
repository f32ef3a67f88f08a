# Project-file post-processing for Roslyn analyzers, in Dafny

This project models `ProjectFilesGeneration`, a Unity editor hook. The hook receives each
generated C# project file (csproj) as an XML tree and edits that tree in place:

* **SetRoslynAnalyzers** handles every file under the analyzer folder.
  * Each full path is made relative to the working directory.
  * A `.dll` becomes an `<Analyzer Include=…/>` item.
  * A `.json` becomes an `<AdditionalFiles Include=…/>` item.
  * A `.ruleset` sets the `CodeAnalysisRuleSet` property.
  * The items go into one new `ItemGroup`, appended as the root's last child.
* **SetCSharpVersion** appends `<LangVersion>7.3</LangVersion>` to every descendant
  `PropertyGroup` whose `Condition` contains `'$(Configuration)|$(Platform)'`.
* **SetOrUpdateProperty** rewrites the first definition of a property with an updater function.
  * Only `PropertyGroup`s directly under the root are searched.
  * When there is no definition, **AddProperty** adds one to the first `PropertyGroup`
    without a `Condition`.
  * If no such group exists, AddProperty creates one as the root's first child.
* **UpgradeProjectFile** does nothing when there is no root. Otherwise it runs the analyzer
  step and then the language-version step.

Layout:

* `xml.dfy` has two modules.
  * `Wrappers` holds `Option` and `FirstIndex`. `FirstIndex` is the `FirstOrDefault` of the
    LINQ queries.
  * `Xml` holds the element tree: qualified names, attributes, child elements in document
    order, and a text value.
* `stamping.dfy` (`LangVersionStamp`) has the descendant selection as a list of paths, the
  reference definition `StampDescendants`, and the lemmas about both.
* `properties.dfy` (`ProjectProperties`) has the property lookup, the reference definitions
  `SetOrUpdated` and `WithProperty`, and their lemmas.
* `analyzers.dfy` (`RoslynAnalyzers`) has file extensions, path trimming, classification,
  the ItemGroup contents, and the rule-set fold.
* `generation.dfy` (`ProjectFilesGeneration`) has the class `ProjectDocument`.
  * Its `root` field is the document's root element.
  * Its methods are the source's methods. They update `root` step by step with the
    source's loops.
  * Each method is proved equal to the reference definition of its module.
  * The module ends with lemmas about the whole pass.

Things to know about the model:

* A property's search (line 124) matches the namespace-qualified `xmlns + "PropertyGroup"`.
  The stamping selection (lines 106-107) matches local names only.
* AddProperty (line 152) looks for an attribute named `xmlns + "Condition"`. An unprefixed
  XML attribute has no namespace. So in a document with a default namespace, a group with
  an ordinary `Condition` still counts as unconditioned there. The model keeps this
  behaviour, and `AddPropertyIgnoresUnqualifiedCondition` states it.
* Three behaviours of the code that the model keeps:
  * The property lookup searches only the `PropertyGroup`s directly under the root (line 124).
  * A missing analyzer folder still leads to stamping, because stamping is a separate step
    (lines 47-48).
  * Repeated stamping adds duplicate LangVersion elements (lines 112-115), as
    `StampNotIdempotent` states.
* `Substring(cwd.Length + 1)` is unchecked. A path shorter than `cwd` plus one character
  makes it throw, and so does an empty result (`new FileInfo("")`). The selection is lazy,
  so the exception arrives in the middle of the loop. Rule sets seen before it have already
  been applied, and the ItemGroup has not been appended. `SetRoslynAnalyzers` returns
  `UntrimmablePath` with exactly that state, and `UpgradeProjectFile` then skips stamping.
  In the program the exception escapes the `ProjectFileGeneration` handler (lines 26-38), so
  that partly edited tree is never saved: it is state inside the pass, not output.

## Model

| member | source | states |
|---|---|---|
| Wrappers.FirstIndex | Analyzers/Editor/ProjectFilesGeneration.cs:151-152 | `FirstOrDefault` returns the first position satisfying the predicate: it satisfies it, no earlier one does, and None means none does |
| LangVersionStamp.ConfigGroupPathsSound | Analyzers/Editor/ProjectFilesGeneration.cs:104-109 | every selected path is non-empty (the root is not a descendant) and leads to a `PropertyGroup` whose first `Condition` attribute (by local name) contains the marker |
| LangVersionStamp.ConfigGroupPathsComplete | Analyzers/Editor/ProjectFilesGeneration.cs:104-109 | every matching descendant of the root is selected |
| LangVersionStamp.StampByPathsIsStamp | Analyzers/Editor/ProjectFilesGeneration.cs:104-115 | appending a LangVersion element at each selected node in document order gives the reference stamping, in which each matching group gets one LangVersion `7.3` as its last child and nothing else changes |
| LangVersionStamp.StampAddsOnePerMatch | Analyzers/Editor/ProjectFilesGeneration.cs:112-115 | stamping adds exactly as many elements as there are matching groups |
| LangVersionStamp.StampIsReversible | Analyzers/Editor/ProjectFilesGeneration.cs:112-115 | removing the last child of each matching node after stamping gives back the original tree, so stamping only appends |
| LangVersionStamp.StampKeepsSelection | Analyzers/Editor/ProjectFilesGeneration.cs:104-109 | after stamping, the selection picks the same groups at the same paths |
| LangVersionStamp.StampTwiceDuplicates | Analyzers/Editor/ProjectFilesGeneration.cs:112-115 | a matching group stamped twice ends with two LangVersion children (there is no check for an existing one) |
| LangVersionStamp.StampNotIdempotent | Analyzers/Editor/ProjectFilesGeneration.cs:112-115 | when at least one group matches, stamping a stamped tree changes it again |
| LangVersionStamp.StampedWithoutMatches | Analyzers/Editor/ProjectFilesGeneration.cs:104-115 | a subtree with no matching node is left as it is |
| ProjectProperties.FindProperty | Analyzers/Editor/ProjectFilesGeneration.cs:124 | the found definition is a child named `xmlns + name` of a root-level `xmlns + PropertyGroup`; no earlier group holds one and no earlier sibling has that name; None exactly when no root-level group holds one |
| ProjectProperties.FirstUnconditionedGroup | Analyzers/Editor/ProjectFilesGeneration.cs:151-152 | the chosen group is the first root-level PropertyGroup with no attribute named `xmlns + "Condition"`; None when there is no such group |
| ProjectProperties.WithProperty | Analyzers/Editor/ProjectFilesGeneration.cs:147-160 | the root keeps its name, attributes and text. With an unconditioned group, that group keeps its name, attributes and text, the property becomes its last child, all other root children are kept and exactly one element is added. Without one, a new `xmlns + PropertyGroup` with no attributes and no text, holding only the property, becomes the first child; the old children follow in order, and two elements are added |
| ProjectProperties.SetOrUpdated | Analyzers/Editor/ProjectFilesGeneration.cs:118-144 | with a definition, only that first definition changes: the root and its group keep their name, attributes and text, every other root child and group child is kept, and the definition keeps its name and attributes and takes the value `updater(old)`, and when that value is new its child elements are gone (`SetValue` replaces all content); when `updater(old) == old` the tree is unchanged; without a definition, the property is added with `updater("")` |
| ProjectProperties.SetOrUpdateThenLookup | Analyzers/Editor/ProjectFilesGeneration.cs:124-143 | afterwards the first definition holds `updater` applied to the previous value, or to "" when there was none |
| ProjectProperties.SetOrUpdateUnchanged | Analyzers/Editor/ProjectFilesGeneration.cs:127-138 | an updater that returns the current value leaves the tree unchanged |
| ProjectProperties.AddPropertyIgnoresUnqualifiedCondition | Analyzers/Editor/ProjectFilesGeneration.cs:151-152 | in a namespaced document, a configuration-scoped group whose attributes carry no namespace still receives the new property |
| ProjectProperties.FindPropertyIs | Analyzers/Editor/ProjectFilesGeneration.cs:124 | the first definition is determined by position: a definition with none before it is the one found |
| RoslynAnalyzers.Extension | Analyzers/Editor/ProjectFilesGeneration.cs:77 | the extension is "" or a suffix of the path starting with `.` and containing no further `.` or separator |
| RoslynAnalyzers.ExtensionIsSuffix | Analyzers/Editor/ProjectFilesGeneration.cs:77 | for an extension of one `.` and no separators, comparing against it is a case-sensitive ends-with test, in both directions |
| RoslynAnalyzers.ClassifyBySuffix | Analyzers/Editor/ProjectFilesGeneration.cs:77-92 | a file is an analyzer iff it ends in `.dll`, an additional file iff `.json`, a rule set iff `.ruleset`, and unrelated otherwise |
| RoslynAnalyzers.RelativePath | Analyzers/Editor/ProjectFilesGeneration.cs:71 | the relative path has length `|full| - |cwd| - 1`, and the first `|cwd| + 1` characters of the full path followed by it give back the full path |
| RoslynAnalyzers.RelativePaths | Analyzers/Editor/ProjectFilesGeneration.cs:70-71 | every file is trimmed the same way, in enumeration order, and the result is non-empty |
| RoslynAnalyzers.ItemsAreReferencedFiles | Analyzers/Editor/ProjectFilesGeneration.cs:73-89 | the ItemGroup holds one item per `.dll` or `.json` file in enumeration order: `Analyzer` for `.dll`, `AdditionalFiles` for `.json`, each with `Include` set to the relative path |
| RoslynAnalyzers.ReferencedCount | Analyzers/Editor/ProjectFilesGeneration.cs:77-89 | the number of referenced files is the number of `.dll` files plus the number of `.json` files |
| RoslynAnalyzers.ReferencesToLength | Analyzers/Editor/ProjectFilesGeneration.cs:77-89 | each referenced file gives exactly one item |
| RoslynAnalyzers.ItemCount | Analyzers/Editor/ProjectFilesGeneration.cs:77-89 | the ItemGroup holds exactly as many items as there are `.dll` and `.json` files |
| RoslynAnalyzers.InjectStep | Analyzers/Editor/ProjectFilesGeneration.cs:75-95 | the next relative path appends exactly its own item to the ItemGroup (`Analyzer` for `.dll`, `AdditionalFiles` for `.json`, none otherwise) and, for a rule set and only then, runs one more set-or-update of CodeAnalysisRuleSet |
| RoslynAnalyzers.RulesetLastWins | Analyzers/Editor/ProjectFilesGeneration.cs:92-95 | when any rule-set file exists, CodeAnalysisRuleSet ends up equal to the last one in enumeration order |
| RoslynAnalyzers.NoRulesetKeepsProperties | Analyzers/Editor/ProjectFilesGeneration.cs:92-95 | without rule-set files the property step changes nothing |
| RoslynAnalyzers.LookupIgnoresAppendedChild | Analyzers/Editor/ProjectFilesGeneration.cs:98 | appending the ItemGroup (not a PropertyGroup) changes no property |
| RoslynAnalyzers.InjectedRuleset | Analyzers/Editor/ProjectFilesGeneration.cs:92-98 | after a completed injection, CodeAnalysisRuleSet is the last rule-set file |
| ProjectFilesGeneration.ProjectDocument.UpgradeProjectFile | Analyzers/Editor/ProjectFilesGeneration.cs:41-50 | with no root nothing changes. Otherwise the result is injection followed by stamping, in the root's namespace. After a trimming exception the tree has only the rule sets before the offending path applied, and there is no stamping |
| ProjectFilesGeneration.ProjectDocument.SetRoslynAnalyzers | Analyzers/Editor/ProjectFilesGeneration.cs:55-99 | a missing folder changes nothing. A completed run gives the rule-set fold plus one new ItemGroup as the last child. An untrimmable path stops the run at that path, with only the earlier rule sets applied |
| ProjectFilesGeneration.ProjectDocument.SetCSharpVersion | Analyzers/Editor/ProjectFilesGeneration.cs:101-116 | the loop over the selected nodes leaves the reference stamping of the root's descendants |
| ProjectFilesGeneration.ProjectDocument.SetOrUpdateProperty | Analyzers/Editor/ProjectFilesGeneration.cs:118-144 | the new root is the reference set-or-update of the old one |
| ProjectFilesGeneration.ProjectDocument.AddProperty | Analyzers/Editor/ProjectFilesGeneration.cs:147-160 | the new root is the reference add-property of the old one |
| ProjectFilesGeneration.StampKeepsProperty | Analyzers/Editor/ProjectFilesGeneration.cs:47-48 | stamping after injection does not change the first definition of any property other than LangVersion |
| ProjectFilesGeneration.UpgradeEndsWithItemGroup | Analyzers/Editor/ProjectFilesGeneration.cs:41-50 | after a completed pass over an existing folder, the root's last child is the new ItemGroup holding exactly the references, untouched by the stamping |
| ProjectFilesGeneration.UpgradeSetsRuleset | Analyzers/Editor/ProjectFilesGeneration.cs:41-50 | after a completed pass, CodeAnalysisRuleSet holds the relative path of the last rule-set file |

## Left out
- String lengths: `Length` and `Substring(cwd.Length + 1)` (line 71) count UTF-16 code units, the model counts characters. The two agree whenever `cwd` is a prefix of the full path, which is how the files are laid out.
- The editor hook (the static constructor subscribing to `ProjectFileGeneration`, `[InitializeOnLoad]`) is host integration.
- Parsing and saving the document (`XDocument.Parse`, `xml.Save`, `Utf8StringWriter` and its UTF-8 declaration) is library code. The model starts from the element tree.
- The filesystem becomes inputs.
  - `DirectoryInfo.Exists` is the flag `dirExists`.
  - `GetFiles("*", AllDirectories)` is the sequence `fulls` of full paths, in enumeration order.
  - `Directory.GetCurrentDirectory()` is `cwd`.
  - `Application.dataPath` and the fixed folder name only choose the directory, so they are not modelled.
- `Debug.Log` and `Debug.LogWarning` are diagnostics only. They appear as comments at the places they are called.
- Mixed XML content, comments and whitespace nodes are not modelled.
  - An element's children are elements only.
  - `Value` is the element's own text, where XElement concatenates all descendant text.
  - `SetValue` replaces the children by the text.
- `FileInfo` path handling is modelled in two parts only: the empty path throws, and the extension search uses the Windows separators `\`, `/` and `:`. Full-path normalisation and invalid-character checks are not modelled.
- Exceptions other than the path-trimming ones, such as I/O errors during enumeration, are not modelled.
