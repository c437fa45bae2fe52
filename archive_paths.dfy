/**
 * The archive entry names the extractor writes, shared by both `MainWindow`
 * versions: the file-name sanitiser, the collision-free path choice over the
 * set of names already used in the archive, and the texts built from numbers.
 */
module ArchivePaths {
  import opened Wrappers
  import opened JavaInt
  import opened TextParseUtils

  /** The characters of the class `[\\/:*?"<>|]`: those not allowed in a file name on some system. */
  predicate IsUnsafe(c: char) {
    c == '\\' || c == '/' || c == ':' || c == '*' || c == '?' || c == '"' || c == '<' || c == '>' || c == '|'
  }

  /** `toFileNameString(name)`: `replaceAll` of that class by `_`. */
  function ToFileNameString(name: string): (r: string)
    ensures |r| == |name|
  {
    if name == [] then []
    else
      var c := name[|name| - 1];
      var init := ToFileNameString(name[..|name| - 1]);
      init + [if IsUnsafe(c) then '_' else c]
  }

  /** Each unsafe character becomes `_`, every other character stays where it is. */
  lemma {:induction false} ToFileNameStringReplaces(name: string)
    ensures forall i :: 0 <= i < |name| ==>
      ToFileNameString(name)[i] == (if IsUnsafe(name[i]) then '_' else name[i])
  {
    if name != [] {
      ToFileNameStringReplaces(name[..|name| - 1]);
    }
  }

  /** A sanitised name holds no unsafe character, and sanitising it again changes nothing. */
  lemma ToFileNameStringIdempotent(name: string)
    ensures forall i :: 0 <= i < |name| ==> !IsUnsafe(ToFileNameString(name)[i])
    ensures ToFileNameString(ToFileNameString(name)) == ToFileNameString(name)
  {
    var once := ToFileNameString(name);
    ToFileNameStringReplaces(name);
    ToFileNameStringReplaces(once);
    assert forall i :: 0 <= i < |once| ==> ToFileNameString(once)[i] == once[i];
  }

  /** The `i`-th alternative name: `body + "$$" + i + suffix`. */
  function Probe(body: string, i: int, suffix: string): string {
    body + "$$" + Decimal(i) + suffix
  }

  /** The first alternative from `i` on that is not reserved; `None` once `Integer.MAX_VALUE` is reached. */
  function FirstFree(reserved: set<string>, body: string, suffix: string, i: nat): (r: Option<string>)
    ensures r.Some? ==> r.value !in reserved
    decreases MAX_VALUE - i
  {
    if i >= MAX_VALUE then None
    else if Probe(body, i, suffix) !in reserved then Some(Probe(body, i, suffix))
    else FirstFree(reserved, body, suffix, i + 1)
  }

  /** Where the search from `i` on stops: the first free alternative's index, or `Integer.MAX_VALUE` when there is none. */
  ghost function FreeIndex(reserved: set<string>, body: string, suffix: string, i: nat): nat
    decreases MAX_VALUE - i
  {
    if i >= MAX_VALUE || Probe(body, i, suffix) !in reserved then i else FreeIndex(reserved, body, suffix, i + 1)
  }

  /**
   * `FirstFree` returns the alternative with the smallest free index from `i`
   * on, every alternative before it being reserved, and `None` only when all
   * of them up to the maximum are.
   */
  lemma {:induction false} FirstFreeIsFirst(reserved: set<string>, body: string, suffix: string, i: nat)
    requires i <= MAX_VALUE
    ensures var j := FreeIndex(reserved, body, suffix, i);
      && i <= j <= MAX_VALUE
      && (forall k :: i <= k < j ==> Probe(body, k, suffix) in reserved)
      && FirstFree(reserved, body, suffix, i) == if j < MAX_VALUE then Some(Probe(body, j, suffix)) else None
    decreases MAX_VALUE - i
  {
    if i < MAX_VALUE && Probe(body, i, suffix) in reserved {
      FirstFreeIsFirst(reserved, body, suffix, i + 1);
      var j := FreeIndex(reserved, body, suffix, i + 1);
      assert FreeIndex(reserved, body, suffix, i) == j;
      assert FirstFree(reserved, body, suffix, i) == FirstFree(reserved, body, suffix, i + 1);
      forall k | i <= k < j ensures Probe(body, k, suffix) in reserved {
        if k == i {
        }
      }
    }
  }

  /**
   * What `makeUniquePath(body, suffix)` returns for the names `reserved` so
   * far: `body + suffix` when it is free, else the first free alternative;
   * `None` stands for the `IOException` thrown when every alternative is taken.
   */
  function UniquePath(reserved: set<string>, body: string, suffix: string): (r: Option<string>)
    ensures r.Some? ==> r.value !in reserved
  {
    if body + suffix !in reserved then Some(body + suffix) else FirstFree(reserved, body, suffix, 0)
  }

  /** The chosen path is the default one when that is free, else the alternative with the smallest free index. */
  lemma UniquePathIsFirstFree(reserved: set<string>, body: string, suffix: string)
    ensures var r := UniquePath(reserved, body, suffix);
      && (body + suffix !in reserved ==> r == Some(body + suffix))
      && (body + suffix in reserved && r.Some? ==>
            exists i :: 0 <= i < MAX_VALUE && r.value == Probe(body, i, suffix) &&
                        forall k :: 0 <= k < i ==> Probe(body, k, suffix) in reserved)
  {
    var r := UniquePath(reserved, body, suffix);
    if body + suffix in reserved && r.Some? {
      FirstFreeIsFirst(reserved, body, suffix, 0);
      var j := FreeIndex(reserved, body, suffix, 0);
      assert r == FirstFree(reserved, body, suffix, 0);
      assert 0 <= j < MAX_VALUE && r.value == Probe(body, j, suffix);
    }
  }

  /** `makeUniquePath` throws only when the default path and every alternative are reserved. */
  lemma UniquePathNone(reserved: set<string>, body: string, suffix: string)
    requires UniquePath(reserved, body, suffix).None?
    ensures body + suffix in reserved
    ensures forall k :: 0 <= k < MAX_VALUE ==> Probe(body, k, suffix) in reserved
  {
    FirstFreeIsFirst(reserved, body, suffix, 0);
    assert FirstFree(reserved, body, suffix, 0).None?;
  }


  lemma {:induction false} FirstFreePrefix(reserved: set<string>, body: string, suffix: string, i: nat)
    ensures var r := FirstFree(reserved, body, suffix, i); r.Some? ==> body <= r.value
    decreases MAX_VALUE - i
  {
    if i < MAX_VALUE {
      if Probe(body, i, suffix) !in reserved {
        assert body <= body + ("$$" + Decimal(i) + suffix);
        assert Probe(body, i, suffix) == body + ("$$" + Decimal(i) + suffix);
      } else {
        FirstFreePrefix(reserved, body, suffix, i + 1);
      }
    }
  }

  /** Whatever name is chosen starts with `body`: an entry stays in the directory its body names. */
  lemma UniquePathPrefix(reserved: set<string>, body: string, suffix: string)
    ensures var r := UniquePath(reserved, body, suffix); r.Some? ==> body <= r.value
  {
    assert body <= body + suffix;
    FirstFreePrefix(reserved, body, suffix, 0);
  }

  /** Distinct indexes give distinct alternatives. */
  lemma ProbeInjective(body: string, suffix: string, a: int, b: int)
    requires Probe(body, a, suffix) == Probe(body, b, suffix)
    ensures a == b
  {
    var p := Probe(body, a, suffix);
    var da, db := Decimal(a), Decimal(b);
    assert |da| == |db|;
    var lo := |body| + 2;
    assert p == body + "$$" + da + suffix;
    assert p[lo..lo + |da|] == da;
    assert Probe(body, b, suffix)[lo..lo + |db|] == db;
    DecimalInjective(a, b);
  }

  /** The alternatives differ from the default path: they are longer. */
  lemma ProbeIsNotDefault(body: string, suffix: string, i: int)
    ensures Probe(body, i, suffix) != body + suffix
  {
    assert |Probe(body, i, suffix)| > |body + suffix|;
  }

  /** The values of `f` at the indexes from `i` to `Integer.MAX_VALUE - 1`. */
  function Image(f: int -> string, i: nat): set<string>
    decreases MAX_VALUE - i
  {
    if i >= MAX_VALUE then {} else Image(f, i + 1) + {f(i)}
  }

  lemma {:induction false} ImageMembers(f: int -> string, i: nat)
    ensures forall p :: p in Image(f, i) ==> exists j :: i <= j < MAX_VALUE && p == f(j)
    decreases MAX_VALUE - i
  {
    if i < MAX_VALUE {
      ImageMembers(f, i + 1);
    }
  }

  /** An injective `f` has as many values as indexes. */
  lemma {:induction false} ImageSize(f: int -> string, i: nat)
    requires forall a, b :: 0 <= a < b < MAX_VALUE ==> f(a) != f(b)
    ensures |Image(f, i)| == if i >= MAX_VALUE then 0 else MAX_VALUE - i
    decreases MAX_VALUE - i
  {
    if i < MAX_VALUE {
      ImageSize(f, i + 1);
      ImageMembers(f, i + 1);
      assert f(i) !in Image(f, i + 1);
    }
  }

  /** `|A| <= |B|` when `A` is a subset of `B`. */
  lemma SubsetCard<T>(a: set<T>, b: set<T>)
    requires a <= b
    ensures |a| <= |b|
  {
    assert b == a + (b - a);
  }

  lemma AddOneCard(s: set<string>, d: string, reserved: set<string>)
    requires d !in s && s <= reserved && d in reserved
    ensures |s| + 1 <= |reserved|
  {
    SubsetCard(s + {d}, reserved);
  }

  lemma ImageInside(reserved: set<string>, d: string, f: int -> string)
    requires forall j :: 0 <= j < MAX_VALUE ==> f(j) != d && f(j) in reserved
    ensures Image(f, 0) <= reserved && d !in Image(f, 0)
  {
    ImageMembers(f, 0);
  }

  /** A set holding `d` and 2^31 - 1 further distinct values `f(0)`, `f(1)`, ... has more than 2^31 - 1 elements. */
  lemma Pigeonhole(reserved: set<string>, d: string, f: int -> string)
    requires forall a, b :: 0 <= a < b < MAX_VALUE ==> f(a) != f(b)
    requires forall j :: 0 <= j < MAX_VALUE ==> f(j) != d
    requires d in reserved && forall j :: 0 <= j < MAX_VALUE ==> f(j) in reserved
    ensures |reserved| > MAX_VALUE
  {
    ImageSize(f, 0);
    ImageInside(reserved, d, f);
    AddOneCard(Image(f, 0), d, reserved);
  }

  /**
   * `makeUniquePath` cannot throw while fewer than 2^31 paths are reserved:
   * the default path and the 2^31 - 1 alternatives are all distinct.
   */
  lemma UniquePathExists(reserved: set<string>, body: string, suffix: string)
    requires |reserved| <= MAX_VALUE
    ensures UniquePath(reserved, body, suffix).Some?
  {
    if UniquePath(reserved, body, suffix).None? {
      UniquePathNone(reserved, body, suffix);
      var f := (k: int) => Probe(body, k, suffix);
      forall a, b | 0 <= a < b < MAX_VALUE ensures f(a) != f(b) {
        if f(a) == f(b) {
          ProbeInjective(body, suffix, a, b);
        }
      }
      forall j | 0 <= j < MAX_VALUE ensures f(j) != body + suffix {
        ProbeIsNotDefault(body, suffix, j);
      }
      Pigeonhole(reserved, body + suffix, f);
    }
  }

  /** `base + "/" + toFileNameString(name)`: the body both `makePath` overloads pass on. */
  function PathBody(base: string, name: string): string {
    base + "/" + ToFileNameString(name)
  }

  /** The chunk suffix `"(" + start + "-" + end + ")"`. */
  function RangeSuffix(start: int, end: int): string {
    "(" + Decimal(start) + "-" + Decimal(end) + ")"
  }

  /** The progress text `done + "/" + count`. */
  function ProgressText(done: int, count: int): string {
    Decimal(done) + "/" + Decimal(count)
  }

  /** The progress text reads back as its two numbers: the text before the `/` is `done`, the text after it `count`. */
  lemma ProgressTextReadsBack(done: nat, count: nat)
    ensures var t := ProgressText(done, count); var k := |Decimal(done)|;
      k < |t| && t[k] == '/' && '/' !in t[..k] &&
      LiteralValue(t[..k]) == done && LiteralValue(t[k + 1..]) == count
  {
    var t := ProgressText(done, count);
    var k := |Decimal(done)|;
    assert t[..k] == Decimal(done);
    assert t[k + 1..] == Decimal(count);
    LiteralOfDecimal(done);
    LiteralOfDecimal(count);
    assert forall i :: 0 <= i < k ==> IsDigit(t[..k][i]);
  }
}
