/**
 * `Tag` (Kotlin): the same flattened element, built by the companion's
 * `create`. It is a plain class with read-only properties; it is a datatype
 * here because nothing in the core compares Kotlin tags or updates them.
 * Its `toString` folds over the attribute map with `forEach`; it produces
 * the same text as the Java `Tag.toString`.
 */
module CdsTagKt {
  import opened Wrappers
  import opened Xml
  import CdsTag

  datatype Tag = Tag(name: string, value: string, attributes: AttributeMap) {
    /** `getAttribute(name)`: `attributes[name]`, `None` (null) when absent or when the name is null. */
    function GetAttribute(n: Option<string>): (r: Option<string>)
      ensures r.Some? <==> n.Some? && HasName(attributes, n.value)
      ensures r.Some? ==> (n.value, r.value) in attributes
    {
      if n.None? then None else Lookup(attributes, n.value)
    }

    /** `toString()`: the value, then `"\n@key => value"` per attribute, appended front to back. */
    function ToString(): (s: string)
      ensures s == CdsTag.TagText(value, attributes)
    {
      FoldIsTagText(value, [], attributes);
      assert [] + attributes == attributes;
      AppendLines(value, attributes)
    }
  }

  /** `Tag.EMPTY`. */
  const EMPTY: Tag := Tag("", "", [])

  /** `Tag.EMPTY` has the empty name and value, prints as the empty text and answers no attribute. */
  lemma EmptyIsBlank(n: Option<string>)
    ensures EMPTY.name == "" && EMPTY.value == ""
    ensures EMPTY.ToString() == ""
    ensures EMPTY.GetAttribute(n).None?
  {
  }

  /** The `forEach` loop: appends the lines of `rest` to `acc`, front to back. */
  function AppendLines(acc: string, rest: AttributeMap): string
    decreases |rest|
  {
    if rest == [] then acc else AppendLines(acc + CdsTag.AttributeLine(rest[0]), rest[1..])
  }

  /** Folding the remaining attributes onto the text of the first ones gives the text of all of them. */
  lemma {:induction false} FoldIsTagText(value: string, done: AttributeMap, rest: AttributeMap)
    ensures AppendLines(CdsTag.TagText(value, done), rest) == CdsTag.TagText(value, done + rest)
    decreases |rest|
  {
    if rest == [] {
      assert done + rest == done;
    } else {
      var next := done + [rest[0]];
      assert next[..|next| - 1] == done;
      FoldIsTagText(value, next, rest[1..]);
      assert next + rest[1..] == done + rest;
    }
  }

  /**
   * `Tag.create(element, root)`; `root` defaults to false as in Kotlin. The
   * attribute map is `attributes.map { name to value }.toMap()`.
   */
  function Create(element: Element, root: bool := false): (t: Tag)
    ensures t.name == element.tagName
    ensures t.value == (if root then "" else element.textContent)
    ensures forall k :: Lookup(t.attributes, k) == LastValue(element.attributes, k)
    ensures DistinctNames(t.attributes)
  {
    Tag(element.tagName, if root then "" else element.textContent, FromPairs(element.attributes))
  }
}
