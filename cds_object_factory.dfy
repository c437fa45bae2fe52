/**
 * `CdsObjectFactory`: turns the XML of a Browse result into `CdsObject`s.
 * The XML parser and the `CdsObject` constructor are parameters: `parse`
 * yields the child nodes of the document element, or `None` when the parser
 * throws; `construct` yields the object, or `None` when the constructor throws
 * `IllegalArgumentException`.
 */
module CdsObjectFactory {
  import opened Wrappers
  import opened Xml
  import opened TextUtils
  import opened CdsTypes

  /** `XmlUtils.newDocument(false, xml)` and then the document element's children, `None` on a parser exception. */
  type Parser = string -> Option<seq<Node>>

  /** `new CdsObject(udn, element)`, `None` on `IllegalArgumentException`. */
  type Constructor = (string, Element) -> Option<CdsObject>

  /** The element children among `nodes`, in document order. */
  function Elements(nodes: seq<Node>): (es: seq<Element>)
    ensures |es| <= |nodes|
  {
    if nodes == [] then []
    else
      var init := Elements(nodes[..|nodes| - 1]);
      match nodes[|nodes| - 1]
      case ElementNode(e) => init + [e]
      case OtherNode => init
  }

  /** `createCdsObject(udn, element)`: the constructor with its exception caught. */
  function CreateCdsObject(udn: string, element: Element, construct: Constructor): Option<CdsObject> {
    construct(udn, element)
  }

  /** The objects built from `elements`, skipping the ones whose construction fails. */
  function Successes(udn: string, elements: seq<Element>, construct: Constructor): (r: seq<CdsObject>)
    ensures |r| <= |elements|
    ensures forall o :: o in r ==> exists i :: 0 <= i < |elements| && CreateCdsObject(udn, elements[i], construct) == Some(o)
  {
    if elements == [] then []
    else
      var init := elements[..|elements| - 1];
      var last := elements[|elements| - 1];
      var r := Successes(udn, init, construct);
      match CreateCdsObject(udn, last, construct)
      case Some(o) =>
        assert forall o' :: o' in r ==> exists i :: 0 <= i < |elements| && CreateCdsObject(udn, elements[i], construct) == Some(o') by {
          forall o' | o' in r ensures exists i :: 0 <= i < |elements| && CreateCdsObject(udn, elements[i], construct) == Some(o') {
            var i :| 0 <= i < |init| && CreateCdsObject(udn, init[i], construct) == Some(o');
            assert elements[i] == init[i];
          }
        }
        r + [o]
      case None =>
        assert forall o' :: o' in r ==> exists i :: 0 <= i < |elements| && CreateCdsObject(udn, elements[i], construct) == Some(o') by {
          forall o' | o' in r ensures exists i :: 0 <= i < |elements| && CreateCdsObject(udn, elements[i], construct) == Some(o') {
            var i :| 0 <= i < |init| && CreateCdsObject(udn, init[i], construct) == Some(o');
            assert elements[i] == init[i];
          }
        }
        r
  }

  /** What `parseDirectChildren` returns: nothing for empty XML or a parser failure, else every successful construction. */
  function DirectChildren(udn: string, xml: Option<string>, parse: Parser, construct: Constructor): (r: seq<CdsObject>)
    ensures IsEmpty(xml) ==> r == []
    ensures !IsEmpty(xml) && parse(xml.value).None? ==> r == []
  {
    if IsEmpty(xml) then []
    else match parse(xml.value)
      case None => []
      case Some(nodes) => Successes(udn, Elements(nodes), construct)
  }

  /** What `parseMetadata` returns: the construction of the first element child only, `None` when there is none. */
  function Metadata(udn: string, xml: Option<string>, parse: Parser, construct: Constructor): (r: Option<CdsObject>)
    ensures IsEmpty(xml) ==> r.None?
    ensures !IsEmpty(xml) && parse(xml.value).None? ==> r.None?
  {
    if IsEmpty(xml) then None
    else match parse(xml.value)
      case None => None
      case Some(nodes) =>
        var es := Elements(nodes);
        if es == [] then None else CreateCdsObject(udn, es[0], construct)
  }

  /** `parseDirectChildren(udn, xml)`: the sibling walk that appends each constructed object. */
  method ParseDirectChildren(udn: string, xml: Option<string>, parse: Parser, construct: Constructor)
    returns (list: seq<CdsObject>)
    ensures list == DirectChildren(udn, xml, parse, construct)
  {
    list := [];
    if IsEmpty(xml) {
      return;
    }
    var doc := parse(xml.value);
    if doc.None? {
      return;
    }
    var nodes := doc.value;
    for k := 0 to |nodes|
      invariant list == Successes(udn, Elements(nodes[..k]), construct)
    {
      assert nodes[..k + 1][..k] == nodes[..k];
      if nodes[k].ElementNode? {
        var created := CreateCdsObject(udn, nodes[k].element, construct);
        assert Elements(nodes[..k + 1]) == Elements(nodes[..k]) + [nodes[k].element];
        assert (Elements(nodes[..k]) + [nodes[k].element])[..|Elements(nodes[..k])|] == Elements(nodes[..k]);
        if created.Some? {
          list := list + [created.value];
        }
      }
    }
    assert nodes[..|nodes|] == nodes;
  }

  /** `parseMetadata(udn, xml)`: the sibling walk that returns at the first element child. */
  method ParseMetadata(udn: string, xml: Option<string>, parse: Parser, construct: Constructor)
    returns (result: Option<CdsObject>)
    ensures result == Metadata(udn, xml, parse, construct)
  {
    if IsEmpty(xml) {
      return None;
    }
    var doc := parse(xml.value);
    if doc.None? {
      return None;
    }
    var nodes := doc.value;
    for k := 0 to |nodes|
      invariant Elements(nodes[..k]) == []
    {
      assert nodes[..k + 1][..k] == nodes[..k];
      if nodes[k].ElementNode? {
        ElementsOfConcat(nodes[..k + 1], nodes[k + 1..]);
        assert nodes[..k + 1] + nodes[k + 1..] == nodes;
        return CreateCdsObject(udn, nodes[k].element, construct);
      }
    }
    assert nodes[..|nodes|] == nodes;
    return None;
  }

  /** Element filtering distributes over concatenation: document order is kept. */
  lemma {:induction false} ElementsOfConcat(a: seq<Node>, b: seq<Node>)
    ensures Elements(a + b) == Elements(a) + Elements(b)
    decreases |b|
  {
    if b == [] {
      assert a + b == a;
    } else {
      var b' := b[..|b| - 1];
      assert (a + b)[..|a + b| - 1] == a + b';
      ElementsOfConcat(a, b');
    }
  }

  /** Construction distributes over concatenation: the results come in document order. */
  lemma {:induction false} SuccessesOfConcat(udn: string, a: seq<Element>, b: seq<Element>, construct: Constructor)
    ensures Successes(udn, a + b, construct) == Successes(udn, a, construct) + Successes(udn, b, construct)
    decreases |b|
  {
    if b == [] {
      assert a + b == a;
    } else {
      var b' := b[..|b| - 1];
      assert (a + b)[..|a + b| - 1] == a + b';
      SuccessesOfConcat(udn, a, b', construct);
    }
  }

  /** An element whose construction fails is skipped, and the elements after it are still processed. */
  lemma FailingElementSkipped(udn: string, before: seq<Element>, e: Element, after: seq<Element>, construct: Constructor)
    requires CreateCdsObject(udn, e, construct).None?
    ensures Successes(udn, before + [e] + after, construct) ==
            Successes(udn, before, construct) + Successes(udn, after, construct)
  {
    SuccessesOfConcat(udn, before + [e], after, construct);
    SuccessesOfConcat(udn, before, [e], construct);
    assert [e][..0] == [];
  }

  /** Non-element nodes are skipped: only the element children decide the result. */
  lemma OtherNodesSkipped(udn: string, xml: string, parse: Parser, construct: Constructor, before: seq<Node>, after: seq<Node>)
    requires xml != "" && parse(xml) == Some(before + [OtherNode] + after)
    ensures DirectChildren(udn, Some(xml), parse, construct) == Successes(udn, Elements(before + after), construct)
  {
    ElementsOfConcat(before + [OtherNode], after);
    ElementsOfConcat(before, [OtherNode]);
    ElementsOfConcat(before, after);
    assert [OtherNode][..0] == [];
  }

  /** The result has at most one object per element child, and each is the construction of one of them. */
  lemma DirectChildrenBound(udn: string, xml: string, parse: Parser, construct: Constructor, nodes: seq<Node>)
    requires xml != "" && parse(xml) == Some(nodes)
    ensures |DirectChildren(udn, Some(xml), parse, construct)| <= |Elements(nodes)|
    ensures forall o :: o in DirectChildren(udn, Some(xml), parse, construct) ==>
      exists e :: e in Elements(nodes) && CreateCdsObject(udn, e, construct) == Some(o)
  {
    var es := Elements(nodes);
    forall o | o in DirectChildren(udn, Some(xml), parse, construct)
      ensures exists e :: e in es && CreateCdsObject(udn, e, construct) == Some(o)
    {
      var i :| 0 <= i < |es| && CreateCdsObject(udn, es[i], construct) == Some(o);
      assert es[i] in es;
    }
  }

  /** `parseMetadata` tries the first element child only: when it fails, the result is `None` whatever follows. */
  lemma MetadataFirstElementOnly(udn: string, xml: string, parse: Parser, construct: Constructor, nodes: seq<Node>)
    requires xml != "" && parse(xml) == Some(nodes) && Elements(nodes) != []
    ensures Metadata(udn, Some(xml), parse, construct) == CreateCdsObject(udn, Elements(nodes)[0], construct)
    ensures CreateCdsObject(udn, Elements(nodes)[0], construct).None? ==> Metadata(udn, Some(xml), parse, construct).None?
  {
  }

  /** When `parseMetadata` finds an object, `parseDirectChildren` on the same XML returns it first. */
  lemma MetadataIsFirstChild(udn: string, xml: Option<string>, parse: Parser, construct: Constructor)
    requires Metadata(udn, xml, parse, construct).Some?
    ensures DirectChildren(udn, xml, parse, construct) != []
    ensures DirectChildren(udn, xml, parse, construct)[0] == Metadata(udn, xml, parse, construct).value
  {
    var es := Elements(parse(xml.value).value);
    SuccessesOfConcat(udn, [es[0]], es[1..], construct);
    assert [es[0]] + es[1..] == es;
    assert [es[0]][..0] == [];
  }
}
