/**
 * `TagMap`: the flattened XML of one catalog entry. Each tag name maps to the
 * list of that tag's occurrences in document order; the names themselves keep
 * their first-insertion order (a `LinkedHashMap`). The root tag (item or
 * container) is stored under the empty name.
 */
module CdsTagMap {
  import opened Wrappers
  import opened Xml
  import opened TextParseUtils
  import opened TextUtils
  import CdsTag

  type Tag = CdsTag.Tag

  /** The key a lookup uses: a null tag name means the root, stored under `""`. */
  function KeyOf(tagName: Option<string>): string {
    if tagName.None? then "" else tagName.value
  }

  /** `String.indexOf(c)`: the first position of `c`, or -1 when there is none. */
  function IndexOf(s: string, c: char): (i: int)
    ensures i == -1 <==> c !in s
    ensures i != -1 ==> 0 <= i < |s| && s[i] == c && c !in s[..i]
  {
    if s == [] then -1
    else if s[0] == c then 0
    else
      var j := IndexOf(s[1..], c);
      assert s == [s[0]] + s[1..];
      if j == -1 then -1
      else
        assert s[..j + 1] == [s[0]] + s[1..][..j];
        j + 1
  }

  /** The first occurrence is the one `IndexOf` finds. */
  lemma {:induction false} IndexOfFirst(s: string, c: char, p: nat)
    requires p < |s| && s[p] == c && c !in s[..p]
    ensures IndexOf(s, c) == p
  {
    if p > 0 {
      assert s[0] == s[..p][0];
      assert s[1..][..p - 1] == s[..p][1..];
      IndexOfFirst(s[1..], c, p - 1);
    }
  }

  /** The occurrence list stored for `name`, empty when there is none. */
  function Occurrences(lists: map<string, seq<Tag>>, name: string): seq<Tag> {
    if name in lists then lists[name] else []
  }

  /** One attribute line of `toString`: indented `@`, the name, ` => `, the value. */
  function AttributeText(a: Attr): string {
    "      @" + a.0 + " => " + a.1 + "\n"
  }

  /** The attribute lines `toString` writes under one occurrence, in map order. */
  function AttributeLines(m: AttributeMap): string {
    if m == [] then "" else AttributeLines(m[..|m| - 1]) + AttributeText(m[|m| - 1])
  }

  /**
   * A lone occurrence is written as `name => `, one of several as `name[i] => `
   * (the index is never negative, so its text is `NatDigits(i)`, which is `Decimal(i)`).
   */
  function Separator(size: nat, i: nat): string {
    if size == 1 then " => " else "[" + NatDigits(i) + "] => "
  }

  /** The first line `toString` writes for occurrence `i` of a name that has `size` occurrences. */
  function OccurrenceHead(name: string, size: nat, i: nat, t: Tag): string {
    name + Separator(size, i) + t.value + "\n"
  }

  function OccurrenceText(name: string, size: nat, i: nat, t: Tag): string {
    OccurrenceHead(name, size, i, t) + AttributeLines(t.GetAttributes())
  }

  /** The text for the first `n` occurrences of `name`. */
  function EntryText(name: string, tags: seq<Tag>, n: nat): string
    requires n <= |tags|
  {
    if n == 0 then "" else EntryText(name, tags, n - 1) + OccurrenceText(name, |tags|, n - 1, tags[n - 1])
  }

  /** The text `toString` produces: every name in insertion order, each occurrence in document order. */
  function MapText(names: seq<string>, lists: map<string, seq<Tag>>): string {
    if names == [] then ""
    else
      var last := names[|names| - 1];
      var tags := Occurrences(lists, last);
      MapText(names[..|names| - 1], lists) + EntryText(last, tags, |tags|)
  }

  class TagMap {
    /** The key order of the `LinkedHashMap`. */
    var names: seq<string>
    /** The occurrence lists, by tag name. */
    var lists: map<string, seq<Tag>>

    ghost predicate Valid()
      reads this
    {
      && (forall i, j :: 0 <= i < j < |names| ==> names[i] != names[j])
      && (forall n :: n in lists <==> n in names)
      && (forall n :: n in lists ==> lists[n] != [])
    }

    constructor ()
      ensures Valid() && names == [] && lists == map[]
    {
      names := [];
      lists := map[];
    }

    /** `putTag(name, tag)`: `computeIfAbsent(name, new ArrayList).add(tag)`. */
    method PutTag(name: string, tag: Tag)
      requires Valid()
      modifies this
      ensures Valid()
      ensures lists == old(lists)[name := Occurrences(old(lists), name) + [tag]]
      ensures names == if name in old(lists) then old(names) else old(names) + [name]
    {
      if name !in lists {
        names := names + [name];
        lists := lists[name := []];
      }
      lists := lists[name := lists[name] + [tag]];
    }

    /** `getTagList(tagName)`: the occurrences of the name (null meaning the root), or `None` (null). */
    function GetTagList(tagName: Option<string>): (r: Option<seq<Tag>>)
      reads this
      ensures r.Some? <==> KeyOf(tagName) in lists
      ensures r.Some? ==> r.value == lists[KeyOf(tagName)]
    {
      var key := KeyOf(tagName);
      if key in lists then Some(lists[key]) else None
    }

    /** `getTag(tagName, index)`: occurrence `index`, `None` for an absent name or an index past the end. */
    function GetTagAt(tagName: Option<string>, index: nat): (r: Option<Tag>)
      reads this
      ensures r.Some? <==> index < |Occurrences(lists, KeyOf(tagName))|
      ensures r.Some? ==> r.value == lists[KeyOf(tagName)][index]
    {
      var list := GetTagList(tagName);
      if list.None? || |list.value| <= index then None else Some(list.value[index])
    }

    /** `getTag(tagName)`: the first occurrence, present exactly when the name is. */
    function GetTag(tagName: Option<string>): (r: Option<Tag>)
      reads this
      requires Valid()
      ensures r.Some? <==> KeyOf(tagName) in lists
      ensures r.Some? ==> r.value == lists[KeyOf(tagName)][0]
    {
      GetTagAt(tagName, 0)
    }

    /**
     * `getValue(tagName, attrName, index)`: read from occurrence `index` only,
     * its value when the attribute name is null or empty, else its attribute.
     */
    function GetTagValueAt(tagName: Option<string>, attrName: Option<string>, index: nat): (r: Option<string>)
      reads this
      ensures index >= |Occurrences(lists, KeyOf(tagName))| ==> r.None?
      ensures index < |Occurrences(lists, KeyOf(tagName))| ==>
        var t := lists[KeyOf(tagName)][index];
        r == if IsEmpty(attrName) then Some(t.value) else t.GetAttribute(attrName)
    {
      var tag := GetTagAt(tagName, index);
      if tag.None? then None
      else if IsEmpty(attrName) then Some(tag.value.value)
      else tag.value.GetAttribute(attrName)
    }

    /** `getValue(tagName, attrName)`: the same lookup on the first occurrence. */
    function GetTagValue(tagName: Option<string>, attrName: Option<string>): (r: Option<string>)
      reads this
      requires Valid()
      ensures KeyOf(tagName) !in lists ==> r.None?
      ensures KeyOf(tagName) in lists ==>
        var t := lists[KeyOf(tagName)][0];
        r == if IsEmpty(attrName) then Some(t.value) else t.GetAttribute(attrName)
    {
      GetTagValueAt(tagName, attrName, 0)
    }

    /**
     * `getValue(xpath, index)`: the key is split at its first `@` into a tag
     * name and an attribute name; without `@` it names a tag's value.
     */
    function GetValueAt(xpath: string, index: nat): (r: Option<string>)
      reads this
      ensures '@' !in xpath ==> r == GetTagValueAt(Some(xpath), None, index)
      ensures forall p :: 0 <= p < |xpath| && xpath[p] == '@' && '@' !in xpath[..p] ==>
        r == GetTagValueAt(Some(xpath[..p]), Some(xpath[p + 1..]), index)
    {
      var pos := IndexOf(xpath, '@');
      if pos < 0 then GetTagValueAt(Some(xpath), None, index)
      else
        assert forall p :: 0 <= p < |xpath| && xpath[p] == '@' && '@' !in xpath[..p] ==> p == pos by {
          forall p | 0 <= p < |xpath| && xpath[p] == '@' && '@' !in xpath[..p] ensures p == pos {
            IndexOfFirst(xpath, '@', p);
          }
        }
        GetTagValueAt(Some(xpath[..pos]), Some(xpath[pos + 1..]), index)
    }

    /** `getValue(xpath)`: the same lookup on the first occurrence. */
    function GetValue(xpath: string): (r: Option<string>)
      reads this
      requires Valid()
      ensures '@' !in xpath ==> (r.Some? <==> xpath in lists)
      ensures '@' !in xpath && xpath in lists ==> r == Some(lists[xpath][0].value)
      ensures forall p :: 0 <= p < |xpath| && xpath[p] == '@' && '@' !in xpath[..p] ==>
        r == GetTagValue(Some(xpath[..p]), Some(xpath[p + 1..]))
    {
      GetValueAt(xpath, 0)
    }

    /**
     * `equals(o)`: another `TagMap` with the same names and, for each, an
     * element-wise identical occurrence list; the order of the names does not matter.
     */
    function Equals(o: TagMap?): (r: bool)
      reads this, o
      ensures o == null ==> !r
      ensures o != null ==> (r <==> lists.Keys == o.lists.Keys && forall n :: n in lists ==> lists[n] == o.lists[n])
    {
      if this == o then true
      else if o == null then false
      else lists == o.lists
    }

    /** `toString()`, built with a `StringBuilder`: every name, then every occurrence of it. */
    method ToString() returns (s: string)
      requires Valid()
      ensures s == MapText(names, lists)
    {
      s := "";
      for e := 0 to |names|
        invariant s == MapText(names[..e], lists)
      {
        var name := names[e];
        var tags := lists[name];
        s := AppendEntry(s, name, tags);
        MapTextStep(names, lists, e);
      }
      assert names[..|names|] == names;
    }
  }

  /** The body of `toString`'s outer loop: every occurrence of one name, in document order. */
  method AppendEntry(sb: string, name: string, tags: seq<Tag>) returns (s: string)
    ensures s == sb + EntryText(name, tags, |tags|)
  {
    s := sb;
    ghost var entry := "";
    for i := 0 to |tags|
      invariant entry == EntryText(name, tags, i)
      invariant s == sb + entry
    {
      Associative(sb, entry, OccurrenceText(name, |tags|, i, tags[i]));
      s := AppendOccurrence(s, name, |tags|, i, tags[i]);
      entry := entry + OccurrenceText(name, |tags|, i, tags[i]);
    }
  }

  /** The body of `toString`'s inner loop: one occurrence's line, then its attribute lines. */
  method AppendOccurrence(sb: string, name: string, size: nat, i: nat, tag: Tag) returns (s: string)
    ensures s == sb + OccurrenceText(name, size, i, tag)
  {
    var head := OccurrenceHead(name, size, i, tag);
    var attrs := tag.GetAttributes();
    ghost var lines := "";
    s := sb + head;
    for a := 0 to |attrs|
      invariant lines == AttributeLines(attrs[..a])
      invariant s == sb + head + lines
    {
      assert attrs[..a + 1][..a] == attrs[..a];
      Associative(sb + head, lines, AttributeText(attrs[a]));
      lines := lines + AttributeText(attrs[a]);
      s := s + AttributeText(attrs[a]);
    }
    assert attrs[..|attrs|] == attrs;
    Associative(sb, head, lines);
  }

  /** Proof helper: regrouping the text a `StringBuilder` holds, as each loop step of `toString` needs. */
  lemma Associative(a: string, b: string, c: string)
    ensures a + b + c == a + (b + c)
  {
  }

  lemma MapTextStep(names: seq<string>, lists: map<string, seq<Tag>>, e: nat)
    requires e < |names|
    ensures MapText(names[..e + 1], lists) ==
      MapText(names[..e], lists) + EntryText(names[e], Occurrences(lists, names[e]), |Occurrences(lists, names[e])|)
  {
    assert names[..e + 1][..e] == names[..e];
  }

  /** An attribute is read from the occurrence the index names; another occurrence that has it is never used instead. */
  lemma AttributeNoFallback(m: TagMap, name: string, attr: string, i: nat, j: nat, x: string)
    requires '@' !in name && attr != ""
    requires name in m.lists && i < |m.lists[name]| && j < |m.lists[name]|
    requires m.lists[name][i].GetAttribute(Some(attr)).None?
    requires m.lists[name][j].GetAttribute(Some(attr)) == Some(x)
    ensures m.GetValueAt(name + "@" + attr, i).None?
    ensures m.GetValueAt(name + "@" + attr, j) == Some(x)
  {
    var xpath := name + "@" + attr;
    var p := |name|;
    assert xpath[p] == '@' && xpath[..p] == name && xpath[p + 1..] == attr;
  }

  /** An empty attribute name after the `@` reads the tag's value: `a@` behaves like `a`. */
  lemma EmptyAttributeReadsValue(m: TagMap, name: string, index: nat)
    requires '@' !in name
    ensures m.GetValueAt(name + "@", index) == m.GetValueAt(name, index)
  {
    var xpath := name + "@";
    var p := |name|;
    assert xpath[p] == '@' && xpath[..p] == name && xpath[p + 1..] == "";
  }

  /** `@attr` reads an attribute of the root tag, stored under the empty name. */
  lemma RootAttribute(m: TagMap, attr: string, index: nat)
    ensures m.GetValueAt("@" + attr, index) == m.GetTagValueAt(None, Some(attr), index)
  {
    var xpath := "@" + attr;
    assert xpath[0] == '@' && xpath[..0] == "" && xpath[1..] == attr;
  }

  /** The text depends only on the lists of the names it lists. */
  lemma {:induction false} MapTextFrame(names: seq<string>, l1: map<string, seq<Tag>>, l2: map<string, seq<Tag>>)
    requires forall n :: n in names ==> n in l1 && n in l2 && l1[n] == l2[n]
    ensures MapText(names, l1) == MapText(names, l2)
  {
    if names != [] {
      MapTextFrame(names[..|names| - 1], l1, l2);
    }
  }

  /** Putting a new name appends its one occurrence at the end of the text: names come out in first-insertion order. */
  lemma NewNameComesLast(names: seq<string>, lists: map<string, seq<Tag>>, name: string, tag: Tag)
    requires forall n :: n in names ==> n in lists
    requires name !in names
    ensures MapText(names + [name], lists[name := [tag]]) == MapText(names, lists) + OccurrenceText(name, 1, 0, tag)
  {
    var after := lists[name := [tag]];
    assert (names + [name])[..|names|] == names;
    MapTextFrame(names, lists, after);
    assert EntryText(name, [tag], 1) == OccurrenceText(name, 1, 0, tag);
  }
}
