/**
 * `Tag` (Java): one flattened, non-nested XML element. All three fields are
 * final, so they are `const` here; `Tag` does not override `equals`, so two
 * tags are equal only when they are the same object, as for a Dafny class.
 */
module CdsTag {
  import opened Wrappers
  import opened Xml

  /** One attribute line of `Tag.toString`: a newline, `@`, the name, ` => `, the value. */
  function AttributeLine(a: Attr): string {
    "\n" + "@" + a.0 + " => " + a.1
  }

  /** The text `Tag.toString` produces: the value, then one attribute line per attribute, in map order. */
  function TagText(value: string, attrs: AttributeMap): (s: string)
    ensures |s| >= |value| && s[..|value|] == value
  {
    if attrs == [] then value
    else
      var init := TagText(value, attrs[..|attrs| - 1]);
      var s := init + AttributeLine(attrs[|attrs| - 1]);
      assert s[..|value|] == init[..|value|];
      s
  }

  class Tag {
    const name: string
    const value: string
    const attribute: AttributeMap

    /**
     * `Tag(element, root)`, and with `root` left out the one-argument
     * `Tag(element)`: a root tag (item or container) takes the empty value,
     * any other tag its element's text content.
     */
    constructor (element: Element, root: bool := false)
      ensures name == element.tagName
      ensures value == (if root then "" else element.textContent)
      ensures attribute == FromPairs(element.attributes)
    {
      name := element.tagName;
      value := if root then "" else element.textContent;
      var m := BuildAttributes(element.attributes);
      attribute := m;
    }

    /** The constructor's loop that puts each attribute node into a new `LinkedHashMap`. */
    static method BuildAttributes(attrs: seq<Attr>) returns (m: AttributeMap)
      ensures m == FromPairs(attrs)
    {
      if |attrs| == 0 {
        return [];
      }
      m := [];
      for i := 0 to |attrs|
        invariant m == FromPairs(attrs[..i])
      {
        assert attrs[..i + 1][..i] == attrs[..i];
        m := Put(m, attrs[i].0, attrs[i].1);
      }
      assert attrs[..|attrs|] == attrs;
    }

    /** `getAttribute(name)`: the stored value, or `None` (null) when there is no such attribute. */
    function GetAttribute(n: Option<string>): (r: Option<string>)
      ensures r.Some? <==> n.Some? && HasName(attribute, n.value)
      ensures r.Some? ==> (n.value, r.value) in attribute
    {
      if n.None? then None else Lookup(attribute, n.value)
    }

    /** `getAttributes()`: the empty map when there are none, otherwise a read-only view of the same entries. */
    function GetAttributes(): (r: AttributeMap)
      ensures attribute == [] ==> r == []
      ensures r == attribute
      ensures |r| == |attribute|
      ensures forall k :: Lookup(r, k) == Lookup(attribute, k)
    {
      if |attribute| == 0 then [] else attribute
    }

    /** `toString()`, built with a `StringBuilder` loop. */
    method ToString() returns (s: string)
      ensures s == TagText(value, attribute)
    {
      s := value;
      for i := 0 to |attribute|
        invariant s == TagText(value, attribute[..i])
      {
        assert attribute[..i + 1][..i] == attribute[..i];
        s := s + "\n";
        s := s + "@";
        s := s + attribute[i].0;
        s := s + " => ";
        s := s + attribute[i].1;
      }
      assert attribute[..|attribute|] == attribute;
    }
  }
}
