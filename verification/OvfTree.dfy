/** The OVF envelope as a tree, and the search for the VirtualSystem element
    (vmfree/parsers/ovf.py). */
module OvfTree {
  import opened Text

  /** An XML element. `text` is empty when the element has none. */
  datatype Element = Element(tag: string, attrs: map<string, string>, text: string, children: seq<Element>)

  const NS_OVF_V1 := "http://schemas.dmtf.org/ovf/envelope/1"
  const NS_OVF_V2 := "http://schemas.dmtf.org/ovf/envelope/2"

  /** `{ns}local -> local` */
  function LocalTag(tag: string): string {
    var k := IndexOf(tag, '}');
    if k < |tag| then tag[k + 1..] else tag
  }

  function Qualified(ns: string, local: string): string { "{" + ns + "}" + local }

  predicate NoBrace(s: string) { forall i | 0 <= i < |s| :: s[i] != '}' }

  lemma LocalOfQualified(ns: string, local: string)
    requires NoBrace(ns)
    ensures LocalTag(Qualified(ns, local)) == local
  {
    assert Qualified(ns, local) == ("{" + ns) + ['}'] + local;
    IndexOfAfter("{" + ns, local, '}');
    assert Qualified(ns, local)[|ns| + 2..] == local;
  }

  /** `tag.split("}")[0].lstrip("{")`, when it is one of the two OVF namespaces. */
  function DetectNamespace(root: Element): (ns: string)
    ensures ns == NS_OVF_V1 || ns == NS_OVF_V2
  {
    var k := IndexOf(root.tag, '}');
    if k < |root.tag| && TrimLeft(root.tag[..k], c => c == '{') == NS_OVF_V2 then NS_OVF_V2 else NS_OVF_V1
  }

  lemma NamespacesHaveNoBrace()
    ensures NoBrace(NS_OVF_V1) && NoBrace(NS_OVF_V2)
  {
  }

  /** Which root tag selects which namespace: the second OVF namespace selects
      itself, and every other one, or none at all, the first. */
  lemma NamespaceOfTag(root: Element, ns: string, local: string)
    requires NoBrace(ns) && (ns != "" ==> ns[0] != '{')
    ensures root.tag == "{" + ns + "}" + local ==>
      DetectNamespace(root) == if ns == "http://schemas.dmtf.org/ovf/envelope/2" then ns
                               else "http://schemas.dmtf.org/ovf/envelope/1"
    ensures NoBrace(root.tag) ==> DetectNamespace(root) == "http://schemas.dmtf.org/ovf/envelope/1"
  {
    var k := IndexOf(root.tag, '}');
    IndexOfFirst(root.tag, '}');
    if root.tag == Qualified(ns, local) {
      assert root.tag == ("{" + ns) + ['}'] + local;
      IndexOfAfter("{" + ns, local, '}');
      assert root.tag[..k] == "{" + ns && ("{" + ns)[1..] == ns;
      assert TrimLeft("{" + ns, c => c == '{') == TrimLeft(ns, c => c == '{');
    }
  }

  // ---------------------------------------------------------------------
  // Searching
  // ---------------------------------------------------------------------

  /** `elem.find(tag)`: the first child with that tag. */
  function Find(children: seq<Element>, tag: string): (r: Option<Element>)
    ensures r.Some? ==> r.value in children && r.value.tag == tag
    ensures r.None? ==> forall i | 0 <= i < |children| :: children[i].tag != tag
  {
    if children == [] then None
    else if children[0].tag == tag then Some(children[0])
    else Find(children[1..], tag)
  }

  /** `root.iter()`: the element and all its descendants in document order. */
  function Preorder(e: Element): seq<Element>
    decreases e, 1, 0
  {
    [e] + PreorderAll(e, e.children)
  }

  function PreorderAll(parent: Element, es: seq<Element>): seq<Element>
    requires forall i | 0 <= i < |es| :: es[i] < parent
    decreases parent, 0, |es|
  {
    if es == [] then [] else Preorder(es[0]) + PreorderAll(parent, es[1..])
  }

  /** Being somewhere in a tree, at any depth. */
  ghost predicate Within(x: Element, root: Element)
    decreases root
  {
    x == root || exists i | 0 <= i < |root.children| :: Within(x, root.children[i])
  }

  lemma {:induction false} PreorderIsWithin(x: Element, root: Element)
    ensures x in Preorder(root) <==> Within(x, root)
    decreases root, 1, 0
  {
    PreorderAllIsWithin(x, root, root.children);
  }

  lemma {:induction false} PreorderAllIsWithin(x: Element, parent: Element, es: seq<Element>)
    requires forall i | 0 <= i < |es| :: es[i] < parent
    ensures x in PreorderAll(parent, es) <==> exists i | 0 <= i < |es| :: Within(x, es[i])
    decreases parent, 0, |es|
  {
    if es != [] {
      var rest := es[1..];
      PreorderIsWithin(x, es[0]);
      PreorderAllIsWithin(x, parent, rest);
      if x in PreorderAll(parent, es) && x !in Preorder(es[0]) {
        var i :| 0 <= i < |rest| && Within(x, rest[i]);
        assert Within(x, es[i + 1]);
      }
      if i :| 0 <= i < |es| && Within(x, es[i]) {
        if i > 0 { assert Within(x, rest[i - 1]); }
      }
    }
  }

  const VIRTUAL_SYSTEM := "VirtualSystem"

  /** Stages one and two: a direct child, or a child of the collection. */
  function FindNearby(root: Element, ns: string): Option<Element> {
    var direct := Find(root.children, Qualified(ns, VIRTUAL_SYSTEM));
    if direct.Some? then direct
    else match Find(root.children, Qualified(ns, "VirtualSystemCollection"))
      case None => None
      case Some(collection) => Find(collection.children, Qualified(ns, VIRTUAL_SYSTEM))
  }

  /** The first child with a tag. */
  predicate FirstChild(x: Element, children: seq<Element>, tag: string) {
    exists i | 0 <= i < |children| ::
      children[i] == x && x.tag == tag && forall j | 0 <= j < i :: children[j].tag != tag
  }

  predicate NoChild(children: seq<Element>, tag: string) { forall i | 0 <= i < |children| :: children[i].tag != tag }

  lemma {:induction false} FindIff(children: seq<Element>, tag: string)
    ensures match Find(children, tag) case Some(x) => FirstChild(x, children, tag) case None => NoChild(children, tag)
  {
    if children != [] && children[0].tag != tag {
      var rest := children[1..];
      FindIff(rest, tag);
      assert forall j | 0 < j < |children| :: children[j] == rest[j - 1];
      if Find(rest, tag).Some? {
        var i :| 0 <= i < |rest| && rest[i] == Find(rest, tag).value && forall j | 0 <= j < i :: rest[j].tag != tag;
        hide Find;
        assert FirstChild(rest[i], children, tag) by { assert children[i + 1] == rest[i]; }
      }
    }
  }

  lemma OneFirst(x: Element, y: Element, children: seq<Element>, tag: string)
    requires FirstChild(x, children, tag) && FirstChild(y, children, tag)
    ensures x == y
  {
  }

  lemma NoneFirst(x: Element, children: seq<Element>, tag: string)
    requires FirstChild(x, children, tag)
    ensures !NoChild(children, tag)
  {
  }

  /** The system that the search takes: the first such child; without one the first
      in the first collection; without that the first in document order with the
      local name, at any depth. */
  ghost predicate IsSystem(vs: Element, root: Element, ns: string) {
    var tag, group := "{" + ns + "}VirtualSystem", "{" + ns + "}VirtualSystemCollection";
    || FirstChild(vs, root.children, tag)
    || (NoChild(root.children, tag)
        && ((exists c :: FirstChild(c, root.children, group) && FirstChild(vs, c.children, tag))
            || ((NoChild(root.children, group)
                 || exists c :: FirstChild(c, root.children, group) && NoChild(c.children, tag))
                && FirstInDocument(vs, root))))
  }

  lemma NearbyIff(root: Element, ns: string, vs: Element)
    requires match FindNearby(root, ns) case Some(x) => vs == x case None => FirstInDocument(vs, root)
    ensures IsSystem(vs, root, ns)
  {
    hide FirstInDocument, FirstChild, NoChild, Find;
    var tag, group := "{" + ns + "}VirtualSystem", "{" + ns + "}VirtualSystemCollection";
    assert Qualified(ns, "VirtualSystem") == tag && Qualified(ns, "VirtualSystemCollection") == group;
    FindIff(root.children, tag);
    FindIff(root.children, group);
    match Find(root.children, group)
    case None =>
    case Some(c) => FindIff(c.children, tag);
  }

  /** Stage three: the first element in document order with the local name. */
  method FindAnywhere(root: Element) returns (r: Option<Element>)
    ensures r.Some? <==> exists x :: Within(x, root) && LocalTag(x.tag) == "VirtualSystem"
    ensures r.Some? ==> Within(r.value, root) && FirstInDocument(r.value, root)
  {
    hide Within, Preorder, LocalTag, FirstInDocument;
    var all := Preorder(root);
    forall x ensures x in all <==> Within(x, root) { PreorderIsWithin(x, root); }
    var i := 0;
    while i < |all|
      invariant 0 <= i <= |all| && forall j | 0 <= j < i :: LocalTag(all[j].tag) != VIRTUAL_SYSTEM
    {
      if LocalTag(all[i].tag) == VIRTUAL_SYSTEM {
        assert all[i] in all;
        ListedIsFirst(all[i], root, i);
        return Some(all[i]);
      }
      i := i + 1;
    }
    return None;
  }

  /** The system, for any namespace: there is one exactly when some element at any
      depth has the local name. */
  method FindVirtualSystem(root: Element, ns: string) returns (r: Option<Element>)
    requires NoBrace(ns)
    ensures r.Some? <==> exists x :: Within(x, root) && LocalTag(x.tag) == "VirtualSystem"
    ensures r.Some? ==> Within(r.value, root) && LocalTag(r.value.tag) == "VirtualSystem"
    ensures r.Some? ==> IsSystem(r.value, root, ns)
  {
    hide Within, LocalTag, FindNearby, FirstInDocument, IsSystem;
    r := FindNearby(root, ns);
    if r.Some? {
      NearbyIsWithin(root, ns);
      NearbyIff(root, ns, r.value);
    } else {
      r := FindAnywhere(root);
      if r.Some? {
        NamedFirst(r.value, root);
        NearbyIff(root, ns, r.value);
      }
    }
  }

  lemma {:induction false} NamedFirst(x: Element, root: Element)
    requires FirstInDocument(x, root)
    ensures LocalTag(x.tag) == "VirtualSystem"
    decreases root
  {
    hide LocalTag;
    if LocalTag(root.tag) != "VirtualSystem" {
      var i :| 0 <= i < |root.children| && FirstInDocument(x, root.children[i]);
      NamedFirst(x, root.children[i]);
    }
  }

  ghost predicate HoldsSystem(e: Element) { exists x :: Within(x, e) && LocalTag(x.tag) == "VirtualSystem" }

  /** The first element in document order with the local name: the root itself, else
      that of the first child that holds one. */
  ghost predicate FirstInDocument(x: Element, root: Element)
    decreases root
  {
    if LocalTag(root.tag) == "VirtualSystem" then x == root
    else
      exists i | 0 <= i < |root.children| ::
        FirstInDocument(x, root.children[i]) && forall j | 0 <= j < i :: !HoldsSystem(root.children[j])
  }

  /** The first one listed. */
  predicate FirstListed(x: Element, es: seq<Element>, i: nat) {
    && i < |es| && es[i] == x && LocalTag(x.tag) == "VirtualSystem"
    && forall j | 0 <= j < i :: LocalTag(es[j].tag) != "VirtualSystem"
  }

  lemma {:induction false} ListedIsFirst(x: Element, root: Element, i: nat)
    requires FirstListed(x, Preorder(root), i)
    ensures FirstInDocument(x, root)
    decreases root, 1, 0
  {
    hide LocalTag, HoldsSystem;
    assert Preorder(root)[0] == root;
    if LocalTag(root.tag) != "VirtualSystem" {
      var below := PreorderAll(root, root.children);
      assert below[i - 1] == x && forall j | 0 <= j < i - 1 :: below[j] == Preorder(root)[j + 1];
      var k := ListedBelow(x, root, root.children, i - 1);
    }
  }

  lemma {:induction false} ListedBelow(x: Element, parent: Element, es: seq<Element>, i: nat) returns (k: nat)
    requires forall i | 0 <= i < |es| :: es[i] < parent
    requires FirstListed(x, PreorderAll(parent, es), i)
    ensures k < |es| && FirstInDocument(x, es[k]) && forall j | 0 <= j < k :: !HoldsSystem(es[j])
    decreases parent, 0, |es|
  {
    hide LocalTag, Within, FirstInDocument;
    var front, rest := Preorder(es[0]), es[1..];
    var back := PreorderAll(parent, rest);
    assert front + back == PreorderAll(parent, es);
    hide Preorder, PreorderAll;
    if i < |front| {
      assert forall j | 0 <= j <= i :: (front + back)[j] == front[j];
      ListedIsFirst(x, es[0], i);
      k := 0;
    } else {
      assert forall j | 0 <= j < |front| :: (front + back)[j] == front[j];
      assert forall j | 0 <= j <= i - |front| :: (front + back)[|front| + j] == back[j];
      forall y ensures Within(y, es[0]) <==> y in front { PreorderIsWithin(y, es[0]); }
      k := ListedBelow(x, parent, rest, i - |front|);
      k := k + 1;
    }
  }

  lemma NearbyIsWithin(root: Element, ns: string)
    requires NoBrace(ns) && FindNearby(root, ns).Some?
    ensures Within(FindNearby(root, ns).value, root)
    ensures LocalTag(FindNearby(root, ns).value.tag) == VIRTUAL_SYSTEM
  {
    var x := FindNearby(root, ns).value;
    LocalOfQualified(ns, VIRTUAL_SYSTEM);
    if Find(root.children, Qualified(ns, VIRTUAL_SYSTEM)).Some? {
      ChildWithin(x, root);
    } else {
      var collection := Find(root.children, Qualified(ns, "VirtualSystemCollection")).value;
      ChildWithin(x, collection);
      var i :| 0 <= i < |root.children| && root.children[i] == collection;
      assert Within(x, root.children[i]);
    }
  }

  lemma ChildWithin(x: Element, root: Element)
    requires x in root.children
    ensures Within(x, root)
  {
    var i :| 0 <= i < |root.children| && root.children[i] == x;
    assert Within(x, root.children[i]);
  }
}
