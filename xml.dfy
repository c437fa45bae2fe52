/**
 * What the core reads from the XML library (DOM): an element's tag name, its
 * text content and its attributes in document order, and the child nodes of a
 * document element. Also the `LinkedHashMap<String, String>` the tags keep
 * their attributes in, as a sequence of (name, value) entries in insertion order.
 */
module Xml {
  import opened Wrappers

  /** One attribute node: (`getNodeName()`, `getNodeValue()`). */
  type Attr = (string, string)

  /** A DOM element, reduced to what `Tag` reads from it. */
  datatype Element = Element(tagName: string, textContent: string, attributes: seq<Attr>)

  /** A child node of the document element: an element, or any other kind of node (text, comment, ...). */
  datatype Node = ElementNode(element: Element) | OtherNode

  /** A `LinkedHashMap<String, String>`: its entries in insertion order. */
  type AttributeMap = seq<Attr>

  predicate HasName(m: seq<Attr>, k: string) {
    exists i :: 0 <= i < |m| && m[i].0 == k
  }

  predicate DistinctNames(m: seq<Attr>) {
    forall i, j :: 0 <= i < j < |m| ==> m[i].0 != m[j].0
  }

  /** The position of the first entry named `k`. */
  function FirstIndex(m: seq<Attr>, k: string): (i: nat)
    requires HasName(m, k)
    ensures i < |m| && m[i].0 == k
    ensures forall j :: 0 <= j < i ==> m[j].0 != k
  {
    if m[0].0 == k then 0
    else
      assert HasName(m[1..], k) by {
        var i :| 0 <= i < |m| && m[i].0 == k;
        assert m[1..][i - 1].0 == k;
      }
      1 + FirstIndex(m[1..], k)
  }

  /** `Map.get(k)`: the value stored under `k`, or `None` (null) when there is none. */
  function Lookup(m: AttributeMap, k: string): (r: Option<string>)
    ensures r.Some? <==> HasName(m, k)
    ensures r.Some? ==> (k, r.value) in m
    ensures DistinctNames(m) ==> forall i :: 0 <= i < |m| && m[i].0 == k ==> r == Some(m[i].1)
  {
    if HasName(m, k) then Some(m[FirstIndex(m, k)].1) else None
  }

  /**
   * `LinkedHashMap.put(k, v)`: a name already present keeps its position and
   * takes the new value; a new name goes at the end.
   */
  function Put(m: AttributeMap, k: string, v: string): (r: AttributeMap)
    ensures Lookup(r, k) == Some(v)
    ensures forall k' :: k' != k ==> Lookup(r, k') == Lookup(m, k')
    ensures HasName(m, k) ==> |r| == |m| && forall i :: 0 <= i < |m| ==> r[i].0 == m[i].0
    ensures !HasName(m, k) ==> r == m + [(k, v)]
    ensures DistinctNames(m) ==> DistinctNames(r)
  {
    if HasName(m, k) then
      var r := m[FirstIndex(m, k) := (k, v)];
      PutKeepsOthers(m, r, k);
      r
    else
      var r := m + [(k, v)];
      PutKeepsOthers(m, r, k);
      assert r[|m|].0 == k;
      assert FirstIndex(r, k) == |m| by {
        assert forall j :: 0 <= j < |m| ==> r[j] == m[j];
      }
      r
  }

  /** Entries under other names are found as before, when only entries named `k` changed or were added. */
  lemma PutKeepsOthers(m: AttributeMap, r: AttributeMap, k: string)
    requires |m| <= |r|
    requires forall i :: 0 <= i < |m| && m[i].0 != k ==> r[i] == m[i]
    requires forall i :: 0 <= i < |r| && (i >= |m| || m[i].0 == k) ==> r[i].0 == k
    ensures forall k' :: k' != k ==> Lookup(r, k') == Lookup(m, k')
  {
    forall k' | k' != k ensures Lookup(r, k') == Lookup(m, k') {
      if HasName(m, k') {
        var i := FirstIndex(m, k');
        assert r[i].0 == k';
        assert FirstIndex(r, k') == i;
      } else {
        assert !HasName(r, k');
      }
    }
  }

  /** The value of the last pair named `k`, read from the back: the reference for `FromPairs`. */
  function LastValue(ps: seq<Attr>, k: string): Option<string> {
    if ps == [] then None
    else if ps[|ps| - 1].0 == k then Some(ps[|ps| - 1].1)
    else LastValue(ps[..|ps| - 1], k)
  }

  /**
   * The map built by putting each pair in turn, as `Tag`'s constructor loop and
   * Kotlin's `toMap()` do: no name twice, and every name maps to its last value.
   */
  function FromPairs(ps: seq<Attr>): (r: AttributeMap)
    ensures DistinctNames(r)
    ensures forall k :: Lookup(r, k) == LastValue(ps, k)
  {
    if ps == [] then []
    else Put(FromPairs(ps[..|ps| - 1]), ps[|ps| - 1].0, ps[|ps| - 1].1)
  }

  /** Attributes with distinct names (as a DOM element has) are kept exactly, in document order. */
  lemma {:induction false} FromDistinctPairs(ps: seq<Attr>)
    requires DistinctNames(ps)
    ensures FromPairs(ps) == ps
  {
    if ps != [] {
      var init := ps[..|ps| - 1];
      var last := ps[|ps| - 1];
      FromDistinctPairs(init);
      assert !HasName(init, last.0) by {
        forall i | 0 <= i < |init| ensures init[i].0 != last.0 {
          assert init[i] == ps[i];
        }
      }
      assert init + [last] == ps;
    }
  }
}
