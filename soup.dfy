/** The parsed resort page as the parser sees it, and the label lookup done
    over it. The HTML parser itself is outside the model: a page is given as
    the forest of nodes it would produce. */
module Soup {
  import opened Builtins

  /** A node of a parsed page: an element with its tag name, its class list
      and its children, or a piece of text. */
  datatype Node =
    | Element(tag: string, classes: seq<string>, children: seq<Node>)
    | Text(content: string)

  /** The top-level nodes of a parsed page, in document order. */
  type Document = seq<Node>

  /** `.text`: all the text below a node, in document order. */
  function TextOf(n: Node): string
    decreases n
  {
    match n
    case Text(c) => c
    case Element(_, _, kids) => TextOfAll(kids)
  }

  function TextOfAll(ns: seq<Node>): string
    decreases ns
  {
    if ns == [] then [] else TextOf(ns[0]) + TextOfAll(ns[1..])
  }

  /** `.string`: the text of a node that has a single text descendant along a
      chain of only children; None as soon as a node has zero or several children. */
  function StringOf(n: Node): Option<string>
    decreases n
  {
    match n
    case Text(c) => Some(c)
    case Element(_, _, kids) => if |kids| == 1 then StringOf(kids[0]) else None
  }

  /** Where `.string` exists it is the whole of `.text`. */
  lemma {:induction false} StringIsText(n: Node)
    ensures StringOf(n).Some? ==> StringOf(n).value == TextOf(n)
    decreases n
  {
    match n
    case Text(_) =>
    case Element(_, _, kids) =>
      if |kids| == 1 {
        StringIsText(kids[0]);
        assert TextOfAll(kids) == TextOf(kids[0]) + TextOfAll(kids[1..]);
      }
  }

  /** An element of the page together with the siblings that follow it. */
  datatype Occurrence = Occurrence(node: Node, following: seq<Node>)

  /** Every element of the forest `ns`, in document order (each element before
      its descendants, and those before its later siblings). */
  function Elements(ns: seq<Node>): seq<Occurrence>
    decreases ns
  {
    if ns == [] then []
    else
      var here := match ns[0]
        case Element(_, _, kids) => [Occurrence(ns[0], ns[1..])] + Elements(kids)
        case Text(_) => [];
      here + Elements(ns[1..])
  }

  /** Index of the first element of `s` satisfying `p`. */
  function FirstWhere<T>(s: seq<T>, p: T -> bool): Option<nat> {
    if s == [] then None
    else if p(s[0]) then Some(0)
    else
      match FirstWhere(s[1..], p)
      case None => None
      case Some(i) => Some(i + 1)
  }

  /** The index found satisfies `p` and no earlier one does; None means none does. */
  lemma {:induction false} FirstWhereFacts<T>(s: seq<T>, p: T -> bool)
    ensures FirstWhere(s, p).Some? ==> FirstWhere(s, p).value < |s| && p(s[FirstWhere(s, p).value])
    ensures FirstWhere(s, p).Some? ==> forall j :: 0 <= j < FirstWhere(s, p).value ==> !p(s[j])
    ensures FirstWhere(s, p).None? ==> forall j :: 0 <= j < |s| ==> !p(s[j])
  {
    if s != [] && !p(s[0]) {
      FirstWhereFacts(s[1..], p);
    }
  }

  /** The elements of `s` satisfying `p`, keeping their order. */
  function Where<T>(s: seq<T>, p: T -> bool): seq<T> {
    if s == [] then [] else (if p(s[0]) then [s[0]] else []) + Where(s[1..], p)
  }

  /** The filter keeps exactly the elements satisfying `p`. */
  lemma {:induction false} WhereFacts<T>(s: seq<T>, p: T -> bool)
    ensures |Where(s, p)| <= |s|
    ensures forall k :: 0 <= k < |Where(s, p)| ==> p(Where(s, p)[k]) && Where(s, p)[k] in s
    ensures forall x :: x in s && p(x) ==> x in Where(s, p)
  {
    if s != [] {
      WhereFacts(s[1..], p);
      assert forall x :: x in s[1..] ==> x in s;
      assert forall x :: x in s ==> x == s[0] || x in s[1..];
    }
  }

  /** Filtering a concatenation filters each part in turn: the matches of
      the first part come first, each as often as it occurs. */
  lemma {:induction false} WhereAppend<T>(a: seq<T>, b: seq<T>, p: T -> bool)
    ensures Where(a + b, p) == Where(a, p) + Where(b, p)
    decreases |a|
  {
    if a == [] {
      assert a + b == b;
    } else {
      assert (a + b)[0] == a[0];
      assert (a + b)[1..] == a[1..] + b;
      WhereAppend(a[1..], b, p);
      var h := if p(a[0]) then [a[0]] else [];
      assert Where(a + b, p) == h + (Where(a[1..], p) + Where(b, p));
      assert Where(a, p) == h + Where(a[1..], p);
    }
  }

  /** A single element is kept exactly when it satisfies `p`. */
  lemma WhereOne<T>(x: T, p: T -> bool)
    ensures p(x) ==> Where([x], p) == [x]
    ensures !p(x) ==> Where([x], p) == []
  {
    assert [x][1..] == [];
  }

  /** The tag-name and `class_` filter of `find`, `find_all` and `find_next_sibling`. */
  predicate Matches(n: Node, tag: string, cls: Option<string>) {
    n.Element? && n.tag == tag && (cls.Some? ==> cls.value in n.classes)
  }

  /** `find(tag, class_=cls)`: the first matching element of the page. */
  function Find(doc: Document, tag: string, cls: Option<string>): Option<Node> {
    var occs := Elements(doc);
    FirstWhereFacts(occs, (o: Occurrence) => Matches(o.node, tag, cls));
    match FirstWhere(occs, (o: Occurrence) => Matches(o.node, tag, cls))
    case None => None
    case Some(i) => Some(occs[i].node)
  }

  /** `find` returns the first matching element in document order, and None
      only when no element matches. */
  lemma FindFacts(doc: Document, tag: string, cls: Option<string>)
    ensures Find(doc, tag, cls).Some? ==>
              exists i :: 0 <= i < |Elements(doc)| && Elements(doc)[i].node == Find(doc, tag, cls).value
                          && Matches(Elements(doc)[i].node, tag, cls)
                          && forall j :: 0 <= j < i ==> !Matches(Elements(doc)[j].node, tag, cls)
    ensures Find(doc, tag, cls).None? ==> forall k :: 0 <= k < |Elements(doc)| ==> !Matches(Elements(doc)[k].node, tag, cls)
  {
    FirstWhereFacts(Elements(doc), (o: Occurrence) => Matches(o.node, tag, cls));
  }

  /** `find_next_sibling(tag, class_=cls)`: the first later sibling that matches. */
  function NextSibling(following: seq<Node>, tag: string, cls: Option<string>): Option<Node> {
    FirstWhereFacts(following, (n: Node) => Matches(n, tag, cls));
    match FirstWhere(following, (n: Node) => Matches(n, tag, cls))
    case None => None
    case Some(i) => Some(following[i])
  }

  lemma NextSiblingFacts(following: seq<Node>, tag: string, cls: Option<string>)
    ensures NextSibling(following, tag, cls).Some? ==>
              exists i :: 0 <= i < |following| && following[i] == NextSibling(following, tag, cls).value
                          && Matches(following[i], tag, cls)
                          && forall j :: 0 <= j < i ==> !Matches(following[j], tag, cls)
    ensures NextSibling(following, tag, cls).None? ==> forall j :: 0 <= j < |following| ==> !Matches(following[j], tag, cls)
  {
    FirstWhereFacts(following, (n: Node) => Matches(n, tag, cls));
  }

  /** The filter `find("dt", string=lambda t: t and variant in t)`: a `dt` whose
      `.string` exists, is not empty and contains `variant`. */
  predicate IsLabelDt(o: Occurrence, variant: string) {
    Matches(o.node, "dt", None)
    && match StringOf(o.node)
       case None => false
       case Some(t) => t != [] && Contains(t, variant)
  }

  /** Element `i` is the first label `dt` for `variant` in document order. */
  ghost predicate FirstLabelDt(occs: seq<Occurrence>, variant: string, i: nat) {
    i < |occs| && IsLabelDt(occs[i], variant)
    && forall j :: 0 <= j < i ==> !IsLabelDt(occs[j], variant)
  }

  /** The stripped text of the first `dd` sibling after an element, if any. */
  function DdText(o: Occurrence): Option<string> {
    match NextSibling(o.following, "dd", None)
    case None => None
    case Some(dd) => Some(Strip(TextOf(dd)))
  }

  /** One round of `get_text_for_labels`. */
  function LabelValue(doc: Document, variant: string): Option<string> {
    var occs := Elements(doc);
    FirstWhereFacts(occs, (o: Occurrence) => IsLabelDt(o, variant));
    match FirstWhere(occs, (o: Occurrence) => IsLabelDt(o, variant))
    case None => None
    case Some(i) => DdText(occs[i])
  }

  /** Only the first label `dt` is looked at: if it has no `dd` sibling the
      label yields nothing, whatever later `dt`s hold. */
  lemma LabelValueFacts(doc: Document, variant: string)
    ensures forall i: nat :: FirstLabelDt(Elements(doc), variant, i) ==> LabelValue(doc, variant) == DdText(Elements(doc)[i])
    ensures (forall i :: 0 <= i < |Elements(doc)| ==> !IsLabelDt(Elements(doc)[i], variant)) ==> LabelValue(doc, variant).None?
  {
    FirstWhereFacts(Elements(doc), (o: Occurrence) => IsLabelDt(o, variant));
  }

  /** `get_text_for_labels`: the labels are tried in order. */
  function TextForLabels(doc: Document, labels: seq<string>): Option<string> {
    if labels == [] then None
    else
      match LabelValue(doc, labels[0])
      case Some(v) => Some(v)
      case None => TextForLabels(doc, labels[1..])
  }

  /** The first label that yields a value decides; None when none does. */
  lemma {:induction false} TextForLabelsFacts(doc: Document, labels: seq<string>)
    ensures TextForLabels(doc, labels).Some? <==> exists k :: 0 <= k < |labels| && LabelValue(doc, labels[k]).Some?
    ensures TextForLabels(doc, labels).Some? ==>
              exists k :: 0 <= k < |labels| && LabelValue(doc, labels[k]) == TextForLabels(doc, labels)
                          && forall j :: 0 <= j < k ==> LabelValue(doc, labels[j]).None?
  {
    if labels != [] && LabelValue(doc, labels[0]).None? {
      var rest := labels[1..];
      TextForLabelsFacts(doc, rest);
      var r := TextForLabels(doc, rest);
      if r.Some? {
        var k :| 0 <= k < |rest| && LabelValue(doc, rest[k]) == r
                 && forall j :: 0 <= j < k ==> LabelValue(doc, rest[j]).None?;
        assert rest[k] == labels[k + 1];
        forall j | 0 <= j < k + 1 ensures LabelValue(doc, labels[j]).None? {
          if j > 0 { assert labels[j] == rest[j - 1]; }
        }
      } else {
        forall k | 0 <= k < |labels| ensures LabelValue(doc, labels[k]).None? {
          if k > 0 { assert labels[k] == rest[k - 1]; }
        }
      }
    }
  }

  /** Absence is not an error: when no `dt` of the page has a text containing
      any of the labels, the lookup yields None. */
  lemma AbsentLabelsYieldNone(doc: Document, labels: seq<string>)
    requires forall i, k :: 0 <= i < |Elements(doc)| && 0 <= k < |labels| && Matches(Elements(doc)[i].node, "dt", None)
               ==> !Contains(TextOf(Elements(doc)[i].node), labels[k])
    ensures TextForLabels(doc, labels) == None
  {
    var occs := Elements(doc);
    forall k | 0 <= k < |labels| ensures LabelValue(doc, labels[k]).None? {
      forall i | 0 <= i < |occs| ensures !IsLabelDt(occs[i], labels[k]) {
        StringIsText(occs[i].node);
      }
      LabelValueFacts(doc, labels[k]);
    }
    TextForLabelsFacts(doc, labels);
  }
}
