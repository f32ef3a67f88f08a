/**
 * SetOrUpdateProperty and AddProperty: set a build property of the project, either by
 * rewriting the first existing definition or by adding a new one.
 */
module ProjectProperties {
  import opened Wrappers
  import opened Xml
  import LangVersionStamp

  /** Membership in `root.Elements(xmlns + "PropertyGroup")`: the fully qualified name. */
  predicate IsPropertyGroup(e: Element, ns: string) {
    e.name == XName(ns, "PropertyGroup")
  }

  /** A root-level PropertyGroup with a child named `xmlns + name`. */
  predicate HoldsProperty(group: Element, ns: string, name: string) {
    IsPropertyGroup(group, ns) &&
    exists k | 0 <= k < |group.children| :: group.children[k].name == XName(ns, name)
  }

  /** `e.Attributes(name).Any()`: an attribute with exactly this qualified name. */
  predicate HasAttribute(e: Element, name: XName) {
    exists k | 0 <= k < |e.attrs| :: e.attrs[k].name == name
  }

  /** The target of AddProperty: a PropertyGroup without an attribute named `xmlns + "Condition"`. */
  predicate IsUnconditionedGroup(e: Element, ns: string) {
    IsPropertyGroup(e, ns) && !HasAttribute(e, XName(ns, "Condition"))
  }

  /**
   * `root.Elements(xmlns + "PropertyGroup").Elements(xmlns + name).FirstOrDefault()`, as the
   * position (group among the root's children, property among the group's children) of the
   * first definition in document order.
   */
  function FindProperty(root: Element, ns: string, name: string): (r: Option<(nat, nat)>)
    ensures r.Some? ==>
      var (g, k) := r.value;
      g < |root.children| && IsPropertyGroup(root.children[g], ns) &&
      k < |root.children[g].children| && root.children[g].children[k].name == XName(ns, name) &&
      (forall h | 0 <= h < g :: !HoldsProperty(root.children[h], ns, name)) &&
      (forall j | 0 <= j < k :: root.children[g].children[j].name != XName(ns, name))
    ensures r.None? <==> forall h | 0 <= h < |root.children| :: !HoldsProperty(root.children[h], ns, name)
  {
    match FirstIndex(root.children, (c: Element) => HoldsProperty(c, ns, name))
    case None => None
    case Some(g) =>
      match FirstIndex(root.children[g].children, (c: Element) => c.name == XName(ns, name))
      case Some(k) => Some((g, k))
      case None => assert false; None
  }

  /** The current value of the first definition of `name`, if there is one. */
  function LookupProperty(root: Element, ns: string, name: string): Option<string> {
    match FindProperty(root, ns, name)
    case Some((g, k)) => Some(Value(root.children[g].children[k]))
    case None => None
  }

  /** The PropertyGroup AddProperty writes to: the first unconditioned one among the root's children. */
  function FirstUnconditionedGroup(root: Element, ns: string): (r: Option<nat>)
    ensures r.Some? ==> r.value < |root.children| && IsUnconditionedGroup(root.children[r.value], ns)
    ensures r.Some? ==> forall h | 0 <= h < r.value :: !IsUnconditionedGroup(root.children[h], ns)
    ensures r.None? ==> forall h | 0 <= h < |root.children| :: !IsUnconditionedGroup(root.children[h], ns)
  {
    FirstIndex(root.children, (c: Element) => IsUnconditionedGroup(c, ns))
  }

  /** `new XElement(xmlns + "PropertyGroup")`. */
  function NewPropertyGroup(ns: string): Element {
    Element(XName(ns, "PropertyGroup"), [], [], "")
  }

  /** `new XElement(xmlns + name, content)`. */
  function NewProperty(ns: string, name: string, content: string): Element {
    Leaf(XName(ns, name), content)
  }

  /**
   * The reference definition of AddProperty: the new property becomes the last child of the
   * first unconditioned PropertyGroup; without one, a new group holding only the property
   * becomes the root's first child.
   */
  function WithProperty(root: Element, ns: string, name: string, content: string): (r: Element)
    ensures r.name == root.name && r.attrs == root.attrs && r.text == root.text
    ensures FirstUnconditionedGroup(root, ns).Some? ==>
      var g := FirstUnconditionedGroup(root, ns).value;
      |r.children| == |root.children| &&
      (forall h | 0 <= h < |r.children| && h != g :: r.children[h] == root.children[h]) &&
      r.children[g].name == root.children[g].name && r.children[g].attrs == root.children[g].attrs &&
      r.children[g].text == root.children[g].text &&
      r.children[g].children == root.children[g].children + [NewProperty(ns, name, content)] &&
      Size(r) == Size(root) + 1
    ensures FirstUnconditionedGroup(root, ns).None? ==>
      |r.children| == |root.children| + 1 && r.children[1..] == root.children &&
      r.children[0].name == XName(ns, "PropertyGroup") && r.children[0].attrs == [] && r.children[0].text == "" &&
      IsUnconditionedGroup(r.children[0], ns) && r.children[0].children == [NewProperty(ns, name, content)] &&
      Size(r) == Size(root) + 2
  {
    var prop := NewProperty(ns, name, content);
    match FirstUnconditionedGroup(root, ns)
    case Some(g) =>
      var group := AppendChild(root.children[g], prop);
      SizeAllConcat(root.children[g].children, [prop]);
      assert SizeAll([prop]) == 1;
      SizeAllUpdate(root.children, g, group);
      root.(children := root.children[g := group])
    case None =>
      var group := AppendChild(NewPropertyGroup(ns), prop);
      assert group.children == [prop];
      assert SizeAll([prop]) == 1;
      assert Size(group) == 2;
      assert [group][1..] == [];
      assert SizeAll([group]) == 2;
      SizeAllConcat([group], root.children);
      assert !HasAttribute(group, XName(ns, "Condition"));
      root.(children := [group] + root.children)
  }

  /** The position (g, k) of the tree, with everything else kept, replaced by `e`. */
  function ReplaceProperty(root: Element, g: nat, k: nat, e: Element): Element
    requires g < |root.children| && k < |root.children[g].children|
  {
    var group := root.children[g];
    root.(children := root.children[g := group.(children := group.children[k := e])])
  }

  /**
   * The reference definition of SetOrUpdateProperty: the first definition of `name` is set
   * to `updater(old value)` when that differs from the old value; without a definition, the
   * property is added with the value `updater("")`.
   */
  function SetOrUpdated(root: Element, ns: string, name: string, updater: string -> string): (r: Element)
    ensures FindProperty(root, ns, name).Some? ==>
      var (g, k) := FindProperty(root, ns, name).value;
      var prev := root.children[g].children[k];
      (updater(Value(prev)) == Value(prev) ==> r == root) &&
      r.name == root.name && r.attrs == root.attrs && r.text == root.text &&
      |r.children| == |root.children| &&
      r.children[g].name == root.children[g].name && r.children[g].attrs == root.children[g].attrs &&
      r.children[g].text == root.children[g].text &&
      (forall h | 0 <= h < |r.children| && h != g :: r.children[h] == root.children[h]) &&
      |r.children[g].children| == |root.children[g].children| &&
      (forall j | 0 <= j < |r.children[g].children| && j != k ::
         r.children[g].children[j] == root.children[g].children[j]) &&
      r.children[g].children[k].name == prev.name && r.children[g].children[k].attrs == prev.attrs &&
      Value(r.children[g].children[k]) == updater(Value(prev)) &&
      (updater(Value(prev)) != Value(prev) ==> r.children[g].children[k].children == [])
    ensures FindProperty(root, ns, name).None? ==> r == WithProperty(root, ns, name, updater(""))
  {
    match FindProperty(root, ns, name)
    case Some((g, k)) =>
      var element := root.children[g].children[k];
      var result := updater(Value(element));
      if result != Value(element) then ReplaceProperty(root, g, k, SetValue(element, result)) else root
    case None => WithProperty(root, ns, name, updater(""))
  }

  /** The definition found at (g, k) is the first one. */
  lemma FindPropertyIs(root: Element, ns: string, name: string, g: nat, k: nat)
    requires g < |root.children| && IsPropertyGroup(root.children[g], ns)
    requires k < |root.children[g].children| && root.children[g].children[k].name == XName(ns, name)
    requires forall h | 0 <= h < g :: !HoldsProperty(root.children[h], ns, name)
    requires forall j | 0 <= j < k :: root.children[g].children[j].name != XName(ns, name)
    ensures FindProperty(root, ns, name) == Some((g, k))
  {
    assert HoldsProperty(root.children[g], ns, name);
    FirstIndexIs(root.children, (c: Element) => HoldsProperty(c, ns, name), g);
    FirstIndexIs(root.children[g].children, (c: Element) => c.name == XName(ns, name), k);
  }

  /**
   * After set-or-update, the first definition of `name` holds `updater` applied to the
   * previous value, or to "" when there was none.
   */
  lemma SetOrUpdateThenLookup(root: Element, ns: string, name: string, updater: string -> string)
    ensures LookupProperty(SetOrUpdated(root, ns, name, updater), ns, name)
         == Some(updater(LookupProperty(root, ns, name).GetOr("")))
  {
    var r := SetOrUpdated(root, ns, name, updater);
    match FindProperty(root, ns, name)
    case Some((g, k)) =>
      var prev := root.children[g].children[k];
      if updater(Value(prev)) != Value(prev) {
        forall j | 0 <= j < k ensures r.children[g].children[j].name != XName(ns, name) {
          assert r.children[g].children[j] == root.children[g].children[j];
        }
        FindPropertyIs(r, ns, name, g, k);
      }
    case None =>
      var content := updater("");
      match FirstUnconditionedGroup(root, ns)
      case Some(g) =>
        var group := root.children[g];
        forall j | 0 <= j < |group.children| ensures r.children[g].children[j].name != XName(ns, name) {
          assert !HoldsProperty(group, ns, name);
          assert r.children[g].children[j] == group.children[j];
        }
        FindPropertyIs(r, ns, name, g, |group.children|);
      case None =>
        FindPropertyIs(r, ns, name, 0, 0);
  }

  /** Applying the value the property already holds changes nothing. */
  lemma SetOrUpdateUnchanged(root: Element, ns: string, name: string, updater: string -> string)
    requires LookupProperty(root, ns, name).Some?
    requires updater(LookupProperty(root, ns, name).value) == LookupProperty(root, ns, name).value
    ensures SetOrUpdated(root, ns, name, updater) == root
  {
  }

  /**
   * AddProperty tests the namespace-qualified name `xmlns + "Condition"`, while an
   * unprefixed XML attribute has no namespace. In a document with a default namespace, a
   * PropertyGroup scoped by an unprefixed Condition (one that SetCSharpVersion does treat
   * as configuration-scoped) still counts as unconditioned and receives the new property.
   */
  lemma AddPropertyIgnoresUnqualifiedCondition(root: Element, ns: string, name: string, content: string)
    requires ns != ""
    requires |root.children| > 0 && IsPropertyGroup(root.children[0], ns)
    requires forall k | 0 <= k < |root.children[0].attrs| :: root.children[0].attrs[k].name.ns == ""
    requires LangVersionStamp.IsConfigGroup(root.children[0])
    ensures FirstUnconditionedGroup(root, ns) == Some(0)
    ensures WithProperty(root, ns, name, content).children[0]
         == AppendChild(root.children[0], NewProperty(ns, name, content))
  {
    assert IsUnconditionedGroup(root.children[0], ns);
    FirstIndexIs(root.children, (c: Element) => IsUnconditionedGroup(c, ns), 0);
  }
}
