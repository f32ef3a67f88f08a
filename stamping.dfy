/**
 * SetCSharpVersion: every descendant PropertyGroup scoped to a configuration and a
 * platform receives a `LangVersion` child holding the fixed language version.
 */
module LangVersionStamp {
  import opened Wrappers
  import opened Xml

  const CSharpVersion := "7.3"
  const ConfigurationPlatformMarker := "'$(Configuration)|$(Platform)'"

  predicate OccursAt(s: string, sub: string, i: int) {
    0 <= i && i + |sub| <= |s| && s[i..i + |sub|] == sub
  }

  /** Ordinal `String.Contains`. */
  predicate ContainsSubstring(s: string, sub: string) {
    exists i | 0 <= i <= |s| - |sub| :: OccursAt(s, sub, i)
  }

  /**
   * The selection of SetCSharpVersion: local name `PropertyGroup` (any namespace), and the
   * first attribute whose LOCAL name is `Condition` contains the marker. No such attribute
   * means no match.
   */
  predicate IsConfigGroup(e: Element) {
    e.name.local == "PropertyGroup" &&
    match FirstIndex(e.attrs, (a: Attribute) => a.name.local == "Condition")
    case Some(k) => ContainsSubstring(e.attrs[k].value, ConfigurationPlatformMarker)
    case None => false
  }

  /** `new XElement(ns + "LangVersion", CSharpVersion)`. */
  function LangVersionElement(ns: string): Element {
    Leaf(XName(ns, "LangVersion"), CSharpVersion)
  }

  /** A position in the tree: the child indices leading from the root to a node. */
  type Path = seq<nat>

  /** The node at path `p`, when `p` leads somewhere. */
  function At(e: Element, p: Path): Option<Element> {
    if p == [] then Some(e)
    else if p[0] < |e.children| then At(e.children[p[0]], p[1..])
    else None
  }

  function Prefixed(i: nat, ps: seq<Path>): (r: seq<Path>)
    ensures |r| == |ps|
    ensures forall k | 0 <= k < |ps| :: r[k] == [i] + ps[k]
  {
    seq(|ps|, k requires 0 <= k < |ps| => [i] + ps[k])
  }

  /** Paths, relative to `e`, of the matching nodes of the subtree of `e` (itself included), in document order. */
  function SubtreeMatches(e: Element): seq<Path> {
    (if IsConfigGroup(e) then [[]] else []) + MatchesFrom(e.children, 0)
  }

  /** Matching paths below a run of siblings `cs`, the first of which is child number `base`. */
  function MatchesFrom(cs: seq<Element>, base: nat): seq<Path> {
    if cs == [] then []
    else Prefixed(base, SubtreeMatches(cs[0])) + MatchesFrom(cs[1..], base + 1)
  }

  /** `root.Descendants().Where(IsConfigGroup)`: the root itself is not a candidate. */
  function ConfigGroupPaths(root: Element): seq<Path> {
    MatchesFrom(root.children, 0)
  }

  /** `node.Add(c)` for the node at path `p`; a path that leads nowhere changes nothing. */
  function AppendAt(e: Element, p: Path, c: Element): Element {
    if p == [] then AppendChild(e, c)
    else if p[0] < |e.children| then e.(children := e.children[p[0] := AppendAt(e.children[p[0]], p[1..], c)])
    else e
  }

  /** `node.Add(c)` for every node of `ps`, in order. */
  function AppendAtAll(e: Element, ps: seq<Path>, c: Element): Element {
    if ps == [] then e else AppendAt(AppendAtAll(e, ps[..|ps| - 1], c), ps[|ps| - 1], c)
  }

  /** The subtree of `e` after stamping, `e` itself included when it matches. */
  function Stamped(e: Element, ns: string): Element {
    Element(e.name, e.attrs,
            StampAll(e.children, ns) + (if IsConfigGroup(e) then [LangVersionElement(ns)] else []),
            e.text)
  }

  function StampAll(cs: seq<Element>, ns: string): (r: seq<Element>)
    ensures |r| == |cs|
  {
    if cs == [] then [] else [Stamped(cs[0], ns)] + StampAll(cs[1..], ns)
  }

  lemma {:induction false} StampAllAt(cs: seq<Element>, ns: string, i: nat)
    requires i < |cs|
    ensures StampAll(cs, ns)[i] == Stamped(cs[i], ns)
  {
    if i > 0 {
      StampAllAt(cs[1..], ns, i - 1);
    }
  }

  /** The reference definition of SetCSharpVersion: stamp every descendant of the root. */
  function StampDescendants(root: Element, ns: string): Element {
    root.(children := StampAll(root.children, ns))
  }

  // ---------------------------------------------------------------------------
  // The selection is exactly the matching descendants.

  lemma {:induction false} MatchesFromSound(cs: seq<Element>, base: nat, k: nat)
    requires k < |MatchesFrom(cs, base)|
    ensures var p := MatchesFrom(cs, base)[k];
      |p| >= 1 && base <= p[0] < base + |cs| &&
      At(cs[p[0] - base], p[1..]).Some? && IsConfigGroup(At(cs[p[0] - base], p[1..]).value)
    decreases cs, 0
  {
    var head := Prefixed(base, SubtreeMatches(cs[0]));
    if k < |head| {
      SubtreeMatchesSound(cs[0], k);
    } else {
      MatchesFromSound(cs[1..], base + 1, k - |head|);
    }
  }

  lemma {:induction false} SubtreeMatchesSound(e: Element, k: nat)
    requires k < |SubtreeMatches(e)|
    ensures At(e, SubtreeMatches(e)[k]).Some? && IsConfigGroup(At(e, SubtreeMatches(e)[k]).value)
    decreases e, 1
  {
    var own: seq<Path> := if IsConfigGroup(e) then [[]] else [];
    if k >= |own| {
      MatchesFromSound(e.children, 0, k - |own|);
    }
  }

  /** Every selected path leads to a matching descendant of the root. */
  lemma ConfigGroupPathsSound(root: Element, k: nat)
    requires k < |ConfigGroupPaths(root)|
    ensures var p := ConfigGroupPaths(root)[k];
      p != [] && At(root, p).Some? && IsConfigGroup(At(root, p).value)
  {
    MatchesFromSound(root.children, 0, k);
  }

  lemma {:induction false} MatchesFromComplete(cs: seq<Element>, base: nat, p: Path)
    requires |p| >= 1 && base <= p[0] < base + |cs|
    requires At(cs[p[0] - base], p[1..]).Some? && IsConfigGroup(At(cs[p[0] - base], p[1..]).value)
    ensures p in MatchesFrom(cs, base)
    decreases cs, 0
  {
    var head := Prefixed(base, SubtreeMatches(cs[0]));
    if p[0] == base {
      SubtreeMatchesComplete(cs[0], p[1..]);
      var k :| 0 <= k < |SubtreeMatches(cs[0])| && SubtreeMatches(cs[0])[k] == p[1..];
      assert head[k] == p;
    } else {
      MatchesFromComplete(cs[1..], base + 1, p);
    }
  }

  lemma {:induction false} SubtreeMatchesComplete(e: Element, p: Path)
    requires At(e, p).Some? && IsConfigGroup(At(e, p).value)
    ensures p in SubtreeMatches(e)
    decreases e, 1
  {
    if p != [] {
      MatchesFromComplete(e.children, 0, p);
    }
  }

  /** Every matching descendant of the root is selected. */
  lemma ConfigGroupPathsComplete(root: Element, p: Path)
    requires p != [] && At(root, p).Some? && IsConfigGroup(At(root, p).value)
    ensures p in ConfigGroupPaths(root)
  {
    MatchesFromComplete(root.children, 0, p);
  }

  // ---------------------------------------------------------------------------
  // Appending at every selected node is stamping.

  lemma {:induction false} AppendAtAllConcat(e: Element, a: seq<Path>, b: seq<Path>, c: Element)
    ensures AppendAtAll(e, a + b, c) == AppendAtAll(AppendAtAll(e, a, c), b, c)
  {
    if b == [] {
      assert a + b == a;
    } else {
      assert (a + b)[..|a + b| - 1] == a + b[..|b| - 1];
      AppendAtAllConcat(e, a, b[..|b| - 1], c);
    }
  }

  /** Appending along paths that all enter child `i` only rewrites child `i`. */
  lemma {:induction false} AppendAtAllPrefixed(e: Element, i: nat, ps: seq<Path>, c: Element)
    requires i < |e.children|
    ensures AppendAtAll(e, Prefixed(i, ps), c)
         == e.(children := e.children[i := AppendAtAll(e.children[i], ps, c)])
  {
    if ps != [] {
      var init := ps[..|ps| - 1];
      var last := ps[|ps| - 1];
      assert Prefixed(i, ps)[..|ps| - 1] == Prefixed(i, init);
      AppendAtAllPrefixed(e, i, init, c);
      assert ([i] + last)[1..] == last;
    }
  }

  lemma {:induction false} StampSubtreeByPaths(e: Element, ns: string)
    ensures AppendAtAll(e, SubtreeMatches(e), LangVersionElement(ns)) == Stamped(e, ns)
    decreases e, 1
  {
    var lv := LangVersionElement(ns);
    if IsConfigGroup(e) {
      AppendAtAllConcat(e, [[]], MatchesFrom(e.children, 0), lv);
      assert AppendAtAll(e, [[]], lv) == AppendAt(AppendAtAll(e, [], lv), [], lv);
      var e1 := AppendChild(e, lv);
      assert e1.children == [] + e.children + [lv];
      StampChildrenByPaths(e1, [], e.children, [lv], ns);
      assert [] + StampAll(e.children, ns) + [lv] == StampAll(e.children, ns) + [lv];
    } else {
      assert SubtreeMatches(e) == MatchesFrom(e.children, 0);
      assert e.children == [] + e.children + [];
      StampChildrenByPaths(e, [], e.children, [], ns);
      assert [] + StampAll(e.children, ns) + [] == StampAll(e.children, ns) + [];
    }
  }

  lemma {:induction false} StampChildrenByPaths(n: Element, pre: seq<Element>, cs: seq<Element>,
                                               extra: seq<Element>, ns: string)
    requires n.children == pre + cs + extra
    ensures AppendAtAll(n, MatchesFrom(cs, |pre|), LangVersionElement(ns))
         == n.(children := pre + StampAll(cs, ns) + extra)
    decreases cs, 0
  {
    var lv := LangVersionElement(ns);
    if cs == [] {
      assert pre + StampAll(cs, ns) + extra == n.children;
    } else {
      var i := |pre|;
      var first := Prefixed(i, SubtreeMatches(cs[0]));
      var rest := MatchesFrom(cs[1..], i + 1);
      var x := Stamped(cs[0], ns);
      var n1 := n.(children := n.children[i := x]);
      calc {
        AppendAtAll(n, MatchesFrom(cs, i), lv);
        AppendAtAll(n, first + rest, lv);
        { AppendAtAllConcat(n, first, rest, lv); }
        AppendAtAll(AppendAtAll(n, first, lv), rest, lv);
        { AppendAtAllPrefixed(n, i, SubtreeMatches(cs[0]), lv);
          StampSubtreeByPaths(cs[0], ns); }
        AppendAtAll(n1, rest, lv);
        { SpliceFirst(pre, cs, extra, x);
          StampChildrenByPaths(n1, pre + [x], cs[1..], extra, ns); }
        n1.(children := (pre + [x]) + StampAll(cs[1..], ns) + extra);
        { SpliceRest(pre, x, StampAll(cs[1..], ns), extra); }
        n.(children := pre + StampAll(cs, ns) + extra);
      }
    }
  }

  lemma SpliceFirst(pre: seq<Element>, cs: seq<Element>, extra: seq<Element>, x: Element)
    requires cs != []
    ensures (pre + cs + extra)[|pre| := x] == (pre + [x]) + cs[1..] + extra
  {
  }

  lemma SpliceRest(pre: seq<Element>, x: Element, tail: seq<Element>, extra: seq<Element>)
    ensures (pre + [x]) + tail + extra == pre + ([x] + tail) + extra
  {
  }

  /**
   * The loop of SetCSharpVersion (one `node.Add` per selected node, in document order)
   * computes the reference definition StampDescendants.
   */
  lemma StampByPathsIsStamp(root: Element, ns: string)
    ensures AppendAtAll(root, ConfigGroupPaths(root), LangVersionElement(ns)) == StampDescendants(root, ns)
  {
    assert root.children == [] + root.children + [];
    StampChildrenByPaths(root, [], root.children, [], ns);
    assert [] + StampAll(root.children, ns) + [] == StampAll(root.children, ns);
  }

  // ---------------------------------------------------------------------------
  // What stamping does to the tree.

  lemma {:induction false} SizeStamped(e: Element, ns: string)
    ensures Size(Stamped(e, ns)) == Size(e) + |SubtreeMatches(e)|
    decreases e, 1
  {
    SizeStampAll(e.children, 0, ns);
    var tail: seq<Element> := if IsConfigGroup(e) then [LangVersionElement(ns)] else [];
    SizeAllConcat(StampAll(e.children, ns), tail);
    assert SizeAll([LangVersionElement(ns)]) == 1;
  }

  lemma {:induction false} SizeStampAll(cs: seq<Element>, base: nat, ns: string)
    ensures SizeAll(StampAll(cs, ns)) == SizeAll(cs) + |MatchesFrom(cs, base)|
    decreases cs, 0
  {
    if cs != [] {
      SizeStamped(cs[0], ns);
      SizeStampAll(cs[1..], base + 1, ns);
      assert StampAll(cs, ns)[1..] == StampAll(cs[1..], ns);
    }
  }

  /** Stamping adds exactly one element per selected PropertyGroup and nothing else. */
  lemma StampAddsOnePerMatch(root: Element, ns: string)
    ensures Size(StampDescendants(root, ns)) == Size(root) + |ConfigGroupPaths(root)|
  {
    SizeStampAll(root.children, 0, ns);
  }

  /** Strips what stamping added: the last child of every matching node. */
  function Unstamped(e: Element): Element {
    var own := if IsConfigGroup(e) && e.children != [] then e.children[..|e.children| - 1] else e.children;
    Element(e.name, e.attrs, UnstampAll(own), e.text)
  }

  function UnstampAll(cs: seq<Element>): (r: seq<Element>)
    ensures |r| == |cs|
  {
    if cs == [] then [] else [Unstamped(cs[0])] + UnstampAll(cs[1..])
  }

  lemma {:induction false} UnstampStamped(e: Element, ns: string)
    ensures Unstamped(Stamped(e, ns)) == e
    decreases e, 1
  {
    var s := Stamped(e, ns);
    assert IsConfigGroup(s) == IsConfigGroup(e);
    if IsConfigGroup(e) {
      assert s.children[..|s.children| - 1] == StampAll(e.children, ns);
    } else {
      assert s.children == StampAll(e.children, ns);
    }
    UnstampStampAll(e.children, ns);
  }

  lemma {:induction false} UnstampStampAll(cs: seq<Element>, ns: string)
    ensures UnstampAll(StampAll(cs, ns)) == cs
    decreases cs, 0
  {
    if cs != [] {
      UnstampStamped(cs[0], ns);
      UnstampStampAll(cs[1..], ns);
      assert StampAll(cs, ns)[1..] == StampAll(cs[1..], ns);
    }
  }

  /** Stamping loses nothing: removing the added children restores every descendant. */
  lemma StampIsReversible(root: Element, ns: string)
    ensures StampDescendants(root, ns).(children := UnstampAll(StampDescendants(root, ns).children)) == root
  {
    UnstampStampAll(root.children, ns);
  }

  // ---------------------------------------------------------------------------
  // Stamping is not idempotent.

  lemma {:induction false} StampAllConcat(a: seq<Element>, b: seq<Element>, ns: string)
    ensures StampAll(a + b, ns) == StampAll(a, ns) + StampAll(b, ns)
  {
    if a == [] {
      assert a + b == b;
    } else {
      assert (a + b)[1..] == a[1..] + b;
      StampAllConcat(a[1..], b, ns);
    }
  }

  lemma {:induction false} MatchesFromConcat(a: seq<Element>, b: seq<Element>, base: nat)
    ensures MatchesFrom(a + b, base) == MatchesFrom(a, base) + MatchesFrom(b, base + |a|)
  {
    if a == [] {
      assert a + b == b;
    } else {
      assert (a + b)[1..] == a[1..] + b;
      MatchesFromConcat(a[1..], b, base + 1);
    }
  }

  lemma {:induction false} StampKeepsSubtreeMatches(e: Element, ns: string)
    ensures SubtreeMatches(Stamped(e, ns)) == SubtreeMatches(e)
    decreases e, 1
  {
    var s := Stamped(e, ns);
    assert IsConfigGroup(s) == IsConfigGroup(e);
    var tail: seq<Element> := if IsConfigGroup(e) then [LangVersionElement(ns)] else [];
    MatchesFromConcat(StampAll(e.children, ns), tail, 0);
    StampKeepsMatchesFrom(e.children, 0, ns);
    assert MatchesFrom(tail, |e.children|) == [] by {
      if tail != [] {
        var lv := LangVersionElement(ns);
        assert SubtreeMatches(lv) == [];
        assert Prefixed(|e.children|, []) == [];
        assert tail[1..] == [];
      }
    }
  }

  lemma {:induction false} StampKeepsMatchesFrom(cs: seq<Element>, base: nat, ns: string)
    ensures MatchesFrom(StampAll(cs, ns), base) == MatchesFrom(cs, base)
    decreases cs, 0
  {
    if cs != [] {
      StampKeepsSubtreeMatches(cs[0], ns);
      StampKeepsMatchesFrom(cs[1..], base + 1, ns);
      assert StampAll(cs, ns)[1..] == StampAll(cs[1..], ns);
    }
  }

  /** Stamping selects the same PropertyGroups when run again. */
  lemma StampKeepsSelection(root: Element, ns: string)
    ensures ConfigGroupPaths(StampDescendants(root, ns)) == ConfigGroupPaths(root)
  {
    StampKeepsMatchesFrom(root.children, 0, ns);
  }

  /** A matching group stamped twice ends with two LangVersion children. */
  lemma StampTwiceDuplicates(e: Element, ns: string)
    requires IsConfigGroup(e)
    ensures var twice := Stamped(Stamped(e, ns), ns).children;
      |twice| >= 2 && twice[|twice| - 2..] == [LangVersionElement(ns), LangVersionElement(ns)]
  {
    var lv := LangVersionElement(ns);
    var once := Stamped(e, ns);
    assert IsConfigGroup(once);
    StampAllConcat(StampAll(e.children, ns), [lv], ns);
    assert Stamped(lv, ns) == lv;
    assert StampAll([lv], ns) == [lv];
  }

  /** Whenever something matches, stamping a second time changes the tree again. */
  lemma StampNotIdempotent(root: Element, ns: string)
    requires |ConfigGroupPaths(root)| > 0
    ensures StampDescendants(StampDescendants(root, ns), ns) != StampDescendants(root, ns)
  {
    var once := StampDescendants(root, ns);
    StampAddsOnePerMatch(once, ns);
    StampKeepsSelection(root, ns);
  }

  /** A subtree without any matching node is left as it is. */
  lemma {:induction false} StampedWithoutMatches(e: Element, ns: string)
    requires SubtreeMatches(e) == []
    ensures Stamped(e, ns) == e
    decreases e, 1
  {
    StampAllWithoutMatches(e.children, 0, ns);
  }

  lemma {:induction false} StampAllWithoutMatches(cs: seq<Element>, base: nat, ns: string)
    requires MatchesFrom(cs, base) == []
    ensures StampAll(cs, ns) == cs
    decreases cs, 0
  {
    if cs != [] {
      assert |Prefixed(base, SubtreeMatches(cs[0]))| == 0;
      StampedWithoutMatches(cs[0], ns);
      StampAllWithoutMatches(cs[1..], base + 1, ns);
    }
  }
}
