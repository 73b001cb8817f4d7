/**
 A toy HTML element tree, standing in for an HtmlAgilityPack document, with the
 one edit the model performs on it itself: removing an attribute from every
 element.  Parsing, serialising and text extraction stay with the library.
 */
module HtmlTree {
  import opened Wrappers

  datatype Node =
    | Element(name: string, attributes: map<string, string>, children: seq<Node>)
    | Text(text: string)

  /** An element seen on its own: its name and attributes. */
  datatype Tag = Tag(name: string, attributes: map<string, string>)

  /** The HtmlAgilityPack operations the model calls but does not define. */
  datatype HtmlLibrary = HtmlLibrary(
    /** `HtmlDocument.LoadHtml`; a failure carries the exception message. */
    load: string -> Result<Node, string>,
    /** `DocumentNode.InnerText` of a loaded document. */
    innerText: Node -> string,
    /** `DocumentNode.OuterHtml`. */
    outerHtml: Node -> string,
    /** `doc.RemoveTags(doc.CreateElement("br"), "p")`. */
    removeBreaks: Node -> Result<Node, string>)

  /** The elements of a tree in document order, which is the order of an
      XPath `//...` selection. */
  function Tags(n: Node): seq<Tag>
    decreases n
  {
    match n
    case Text(_) => []
    case Element(name, attributes, children) => [Tag(name, attributes)] + TagsAll(children)
  }

  function TagsAll(ns: seq<Node>): seq<Tag>
    decreases ns
  {
    if ns == [] then [] else Tags(ns[0]) + TagsAll(ns[1..])
  }

  /** The tree with every attribute forgotten: names, nesting and text only. */
  function Skeleton(n: Node): Node
    decreases n
  {
    match n
    case Text(_) => n
    case Element(name, _, children) => Element(name, map[], SkeletonAll(children))
  }

  function SkeletonAll(ns: seq<Node>): seq<Node>
    decreases ns
  {
    if ns == [] then [] else [Skeleton(ns[0])] + SkeletonAll(ns[1..])
  }

  /** `ys` is `xs` with every element's attributes replaced by `edit` of it. */
  ghost predicate Edited(xs: seq<Tag>, ys: seq<Tag>, edit: Tag -> map<string, string>) {
    && |ys| == |xs|
    && forall i :: 0 <= i < |xs| ==> ys[i] == Tag(xs[i].name, edit(xs[i]))
  }

  lemma EditedConcat(xs1: seq<Tag>, xs2: seq<Tag>, ys1: seq<Tag>, ys2: seq<Tag>, edit: Tag -> map<string, string>)
    requires Edited(xs1, ys1, edit) && Edited(xs2, ys2, edit)
    ensures Edited(xs1 + xs2, ys1 + ys2, edit)
  {
    forall i | 0 <= i < |xs1 + xs2|
      ensures (ys1 + ys2)[i] == Tag((xs1 + xs2)[i].name, edit((xs1 + xs2)[i]))
    {
      if i < |xs1| {
        assert (xs1 + xs2)[i] == xs1[i] && (ys1 + ys2)[i] == ys1[i];
      } else {
        assert (xs1 + xs2)[i] == xs2[i - |xs1|] && (ys1 + ys2)[i] == ys2[i - |xs1|];
      }
    }
  }

  /** Every element's attributes replaced by `edit` of the element, the tree
      otherwise kept. */
  function EditElements(n: Node, edit: Tag -> map<string, string>): (r: Node)
    ensures Skeleton(r) == Skeleton(n)
    ensures Edited(Tags(n), Tags(r), edit)
    decreases n
  {
    match n
    case Text(_) => n
    case Element(name, attributes, children) =>
      var edited := EditElementsAll(children, edit);
      EditedConcat([Tag(name, attributes)], TagsAll(children), [Tag(name, edit(Tag(name, attributes)))], TagsAll(edited), edit);
      Element(name, edit(Tag(name, attributes)), edited)
  }

  function EditElementsAll(ns: seq<Node>, edit: Tag -> map<string, string>): (rs: seq<Node>)
    ensures |rs| == |ns|
    ensures SkeletonAll(rs) == SkeletonAll(ns)
    ensures Edited(TagsAll(ns), TagsAll(rs), edit)
    decreases ns
  {
    if ns == [] then []
    else
      var head := EditElements(ns[0], edit);
      var tail := EditElementsAll(ns[1..], edit);
      var rs := [head] + tail;
      assert rs[0] == head && rs[1..] == tail;
      EditedConcat(Tags(ns[0]), TagsAll(ns[1..]), Tags(head), TagsAll(tail), edit);
      rs
  }

  /** Editing twice is editing once when the edit is idempotent on every element. */
  lemma {:induction false} EditElementsIdempotent(n: Node, edit: Tag -> map<string, string>)
    requires forall t: Tag :: edit(Tag(t.name, edit(t))) == edit(t)
    ensures EditElements(EditElements(n, edit), edit) == EditElements(n, edit)
    decreases n
  {
    match n
    case Text(_) =>
    case Element(name, attributes, children) =>
      EditElementsAllIdempotent(children, edit);
  }

  lemma {:induction false} EditElementsAllIdempotent(ns: seq<Node>, edit: Tag -> map<string, string>)
    requires forall t: Tag :: edit(Tag(t.name, edit(t))) == edit(t)
    ensures EditElementsAll(EditElementsAll(ns, edit), edit) == EditElementsAll(ns, edit)
    decreases ns
  {
    if ns != [] {
      var once := EditElementsAll(ns, edit);
      assert once[0] == EditElements(ns[0], edit) && once[1..] == EditElementsAll(ns[1..], edit);
      EditElementsIdempotent(ns[0], edit);
      EditElementsAllIdempotent(ns[1..], edit);
    }
  }

  /** An edit that keeps the attributes of every element of a tree leaves
      the tree as it is. */
  lemma {:induction false} EditElementsKeeps(n: Node, edit: Tag -> map<string, string>)
    requires forall t :: t in Tags(n) ==> edit(t) == t.attributes
    ensures EditElements(n, edit) == n
    decreases n
  {
    match n
    case Text(_) =>
    case Element(name, attributes, children) =>
      assert Tag(name, attributes) in Tags(n);
      EditElementsAllKeeps(children, edit);
  }

  lemma {:induction false} EditElementsAllKeeps(ns: seq<Node>, edit: Tag -> map<string, string>)
    requires forall t :: t in TagsAll(ns) ==> edit(t) == t.attributes
    ensures EditElementsAll(ns, edit) == ns
    decreases ns
  {
    if ns != [] {
      assert TagsAll(ns) == Tags(ns[0]) + TagsAll(ns[1..]);
      EditElementsKeeps(ns[0], edit);
      EditElementsAllKeeps(ns[1..], edit);
      assert ns == [ns[0]] + ns[1..];
    }
  }

  function WithoutAttribute(attribute: string): Tag -> map<string, string> {
    (t: Tag) => t.attributes - {attribute}
  }

  /** `RemoveAttributeFromDocument(doc, attribute)`: every element that carries
      the attribute, selected by an XPath attribute test, loses it. */
  function RemoveAttribute(doc: Node, attribute: string): (r: Node)
    ensures Skeleton(r) == Skeleton(doc)
    ensures |Tags(r)| == |Tags(doc)|
    ensures forall i :: 0 <= i < |Tags(r)| ==>
      && Tags(r)[i].name == Tags(doc)[i].name
      && Tags(r)[i].attributes == Tags(doc)[i].attributes - {attribute}
    ensures forall i :: 0 <= i < |Tags(r)| ==> attribute !in Tags(r)[i].attributes
  {
    EditElements(doc, WithoutAttribute(attribute))
  }

  /** Removing an attribute no element carries changes nothing. */
  lemma RemoveAbsentAttribute(doc: Node, attribute: string)
    requires forall t :: t in Tags(doc) ==> attribute !in t.attributes
    ensures RemoveAttribute(doc, attribute) == doc
  {
    EditElementsKeeps(doc, WithoutAttribute(attribute));
  }

  /** Removing an attribute a second time changes nothing. */
  lemma RemoveAttributeIdempotent(doc: Node, attribute: string)
    ensures RemoveAttribute(RemoveAttribute(doc, attribute), attribute) == RemoveAttribute(doc, attribute)
  {
    EditElementsIdempotent(doc, WithoutAttribute(attribute));
  }
}
