/**
 * `XmlPullParserUtils`: the helpers the device-description parser uses to find
 * tags regardless of namespace prefix, and to repair stray ampersands that some
 * gateways put in their XML.
 */
module XmlPullParserUtils {
  import opened Wrappers
  import opened Text

  /** `isNullOrEmpty` (lines 103-105). */
  function IsNullOrEmpty(s: Option<string>): (r: bool)
    ensures r <==> s == None || s == Some("")
  {
    s.None? || |s.value| == 0
  }

  // ---------------------------------------------------------------------------
  // Tag comparison
  // ---------------------------------------------------------------------------

  /** `String.regionMatches(true, ...)`: `len` characters agree after case folding. */
  predicate RegionMatchesIgnoreCase(a: string, aFrom: nat, b: string, bFrom: nat, len: nat) {
    && aFrom + len <= |a| && bFrom + len <= |b|
    && EqualsIgnoreCase(a[aFrom..aFrom + len], b[bFrom..bFrom + len])
  }

  /** Offset `k` of `found` starts a local name: the start, or just after a ':'. */
  predicate StartsLocalName(found: string, k: int)
    requires 0 <= k <= |found|
  {
    k == 0 || found[k - 1] == ':'
  }

  /**
   * `tagsEquals` (lines 160-163): the found tag equals the wanted one ignoring
   * case, either whole or as the part after a ':' that ends it. So a tag matches
   * exactly when some suffix of the found tag that starts a local name equals it.
   */
  function TagsEquals(found: string, tag: string): (r: bool)
    ensures r ==> |tag| <= |found|
    ensures r <==> exists k :: 0 <= k <= |found| && StartsLocalName(found, k) && EqualsIgnoreCase(found[k..], tag)
  {
    var offset := |found| - |tag|;
    var r :=
      || EqualsIgnoreCase(tag, found)
      || (|tag| < |found| && found[offset - 1] == ':' && RegionMatchesIgnoreCase(tag, 0, found, offset, |tag|));
    assert r ==> StartsLocalName(found, offset) && EqualsIgnoreCase(found[offset..], tag) by {
      if r && !EqualsIgnoreCase(tag, found) {
        assert tag[0..|tag|] == tag && found[offset..offset + |tag|] == found[offset..];
      } else if r {
        assert found[0..] == found;
      }
    }
    assert (exists k :: 0 <= k <= |found| && StartsLocalName(found, k) && EqualsIgnoreCase(found[k..], tag)) ==> r by {
      if exists k :: 0 <= k <= |found| && StartsLocalName(found, k) && EqualsIgnoreCase(found[k..], tag) {
        var k :| 0 <= k <= |found| && StartsLocalName(found, k) && EqualsIgnoreCase(found[k..], tag);
        assert k == offset;
        if k > 0 {
          assert tag[0..|tag|] == tag && found[offset..offset + |tag|] == found[offset..];
        } else {
          assert found[0..] == found;
        }
      }
    }
    r
  }

  lemma TagMatchesItselfAndItsPrefixedForms(prefix: string, tag: string)
    ensures TagsEquals(tag, tag)
    ensures TagsEquals(prefix + ":" + tag, tag)
    ensures TagsEquals(ToLower(prefix + ":" + tag), tag)
  {
    var found := prefix + ":" + tag;
    assert found[|prefix| + 1..] == tag;
    assert found[|prefix|] == ':';
    assert TagsEquals(tag, tag) by {
      assert tag[0..] == tag;
    }
    var lowered := ToLower(found);
    assert lowered[|prefix|] == ':';
    assert EqualsIgnoreCase(lowered[|prefix| + 1..], tag) by {
      forall i | 0 <= i < |tag| ensures Lower(lowered[|prefix| + 1..][i]) == Lower(tag[i]) {
        assert lowered[|prefix| + 1..][i] == Lower(found[|prefix| + 1 + i]);
        assert found[|prefix| + 1 + i] == tag[i];
      }
    }
  }

  /** Without a ':' in the found tag, matching is plain case-insensitive equality. */
  lemma UnprefixedTagMatchesOnlyWhole(found: string, tag: string)
    requires forall i :: 0 <= i < |found| ==> found[i] != ':'
    ensures TagsEquals(found, tag) <==> EqualsIgnoreCase(found, tag)
  {
    if TagsEquals(found, tag) {
      var k :| 0 <= k <= |found| && StartsLocalName(found, k) && EqualsIgnoreCase(found[k..], tag);
      assert k == 0;
      assert found[0..] == found;
    }
    if EqualsIgnoreCase(found, tag) {
      assert found[0..] == found;
    }
  }

  /** Only the text after the last ':' can match when the wanted tag has no ':'. */
  lemma ExampleTags()
    ensures TagsEquals("s:Envelope", "envelope")
    ensures TagsEquals("a:b:c", "b:c")
    ensures !TagsEquals("envelope", "s:Envelope")
    ensures !TagsEquals("xEnvelope", "envelope")
  {
    assert "s:Envelope"[2..] == "Envelope";
    assert "a:b:c"[2..] == "b:c";
  }

  // ---------------------------------------------------------------------------
  // Tag search
  // ---------------------------------------------------------------------------

  /** A jsoup `Element` as the search sees it: its tag name and its element children. */
  datatype Element = Element(tagName: string, children: seq<Element>)

  /** `d` lies strictly below `e`. */
  ghost predicate IsDescendant(d: Element, e: Element)
    decreases e
  {
    exists i :: 0 <= i < |e.children| && (e.children[i] == d || IsDescendant(d, e.children[i]))
  }

  /** `searchTagImpl` (lines 113-125): a depth-first search of the element's descendants. */
  function SearchTagImpl(element: Element, tag: string): (r: bool)
    ensures r <==> exists j :: 0 <= j < |element.children|
                     && (TagsEquals(element.children[j].tagName, tag) || SearchTagImpl(element.children[j], tag))
    decreases element, 1
  {
    SearchChildren(element, tag, 0)
  }

  /**
   * The loop of `searchTagImpl` from child `i` on: it succeeds exactly when some
   * child from `i` on matches or has a match below it.
   */
  function SearchChildren(element: Element, tag: string, i: nat): (r: bool)
    requires i <= |element.children|
    ensures r <==> exists j :: i <= j < |element.children|
                     && (TagsEquals(element.children[j].tagName, tag) || SearchTagImpl(element.children[j], tag))
    decreases element, 0, |element.children| - i
  {
    if i == |element.children| then false
    else
      var child := element.children[i];
      if TagsEquals(child.tagName, tag) then true
      else if SearchTagImpl(child, tag) then true
      else
        var rest := SearchChildren(element, tag, i + 1);
        assert rest <== exists j :: i <= j < |element.children|
                          && (TagsEquals(element.children[j].tagName, tag) || SearchTagImpl(element.children[j], tag)) by {
          if exists j :: i <= j < |element.children|
               && (TagsEquals(element.children[j].tagName, tag) || SearchTagImpl(element.children[j], tag)) {
            var j :| i <= j < |element.children|
                     && (TagsEquals(element.children[j].tagName, tag) || SearchTagImpl(element.children[j], tag));
            assert j != i;
          }
        }
        rest
  }

  /** A successful search has a matching descendant to show for it. */
  lemma {:induction false} FoundHasDescendant(element: Element, tag: string)
    requires SearchTagImpl(element, tag)
    ensures exists d :: IsDescendant(d, element) && TagsEquals(d.tagName, tag)
    decreases element
  {
    var j :| 0 <= j < |element.children|
              && (TagsEquals(element.children[j].tagName, tag) || SearchTagImpl(element.children[j], tag));
    var child := element.children[j];
    if TagsEquals(child.tagName, tag) {
      assert IsDescendant(child, element);
    } else {
      FoundHasDescendant(child, tag);
      var d :| IsDescendant(d, child) && TagsEquals(d.tagName, tag);
      assert IsDescendant(d, element);
    }
  }

  /** A matching descendant is always found. */
  lemma {:induction false} DescendantIsFound(element: Element, tag: string, d: Element)
    requires IsDescendant(d, element) && TagsEquals(d.tagName, tag)
    ensures SearchTagImpl(element, tag)
    decreases element
  {
    var j :| 0 <= j < |element.children| && (element.children[j] == d || IsDescendant(d, element.children[j]));
    var child := element.children[j];
    if child != d {
      DescendantIsFound(child, tag, d);
    }
    assert TagsEquals(child.tagName, tag) || SearchTagImpl(child, tag);
  }

  /**
   * The search finds the tag exactly when some descendant of the element (not the
   * element itself) carries a matching tag name.
   */
  lemma SearchTagImplFindsDescendant(element: Element, tag: string)
    ensures SearchTagImpl(element, tag) <==> exists d :: IsDescendant(d, element) && TagsEquals(d.tagName, tag)
  {
    if SearchTagImpl(element, tag) {
      FoundHasDescendant(element, tag);
    }
    if exists d :: IsDescendant(d, element) && TagsEquals(d.tagName, tag) {
      var d :| IsDescendant(d, element) && TagsEquals(d.tagName, tag);
      DescendantIsFound(element, tag, d);
    }
  }

  /** The element's own tag name is never compared. */
  lemma RootIsNotSearched(tag: string)
    ensures !SearchTagImpl(Element(tag, []), tag)
  {
  }

  /** `searchTag` (lines 107-111): success, or an I/O failure naming the missing tag. */
  function SearchTag(element: Element, tag: string): (r: Outcome<string>)
    ensures r.Pass? <==> exists d :: IsDescendant(d, element) && TagsEquals(d.tagName, tag)
    ensures r.Fail? ==> r.error == "Tag '" + tag + "' not found"
  {
    SearchTagImplFindsDescendant(element, tag);
    if !SearchTagImpl(element, tag) then Fail("Tag '" + tag + "' not found") else Pass
  }

  // ---------------------------------------------------------------------------
  // Entity repair
  // ---------------------------------------------------------------------------

  /** The entity forms the repair leaves alone (lines 140-141). */
  const Entities: seq<string> := ["&#", "&lt;", "&gt;", "&amp;", "&apos;", "&quot;"]

  /** The text at an ampersand begins one of the entity forms left alone. */
  predicate Recognized(s: string) {
    exists i :: 0 <= i < |Entities| && StartsWith(s, Entities[i])
  }

  /** Each entity form is an ampersand followed by at most five characters, none an ampersand. */
  lemma EntitiesShape()
    ensures forall i :: 0 <= i < |Entities| ==>
              && 2 <= |Entities[i]| <= 6 && Entities[i][0] == '&'
              && forall j :: 1 <= j < |Entities[i]| ==> Entities[i][j] != '&'
  {
  }

  /** `Recognized` is the six tests of lines 140-141. */
  lemma RecognizedIsTheSixTests(s: string)
    ensures Recognized(s) <==>
              || StartsWith(s, "&#") || StartsWith(s, "&lt;") || StartsWith(s, "&gt;")
              || StartsWith(s, "&amp;") || StartsWith(s, "&apos;") || StartsWith(s, "&quot;")
  {
    if StartsWith(s, "&#") { assert StartsWith(s, Entities[0]); }
    if StartsWith(s, "&lt;") { assert StartsWith(s, Entities[1]); }
    if StartsWith(s, "&gt;") { assert StartsWith(s, Entities[2]); }
    if StartsWith(s, "&amp;") { assert StartsWith(s, Entities[3]); }
    if StartsWith(s, "&apos;") { assert StartsWith(s, Entities[4]); }
    if StartsWith(s, "&quot;") { assert StartsWith(s, Entities[5]); }
  }

  /** The ampersand at offset `k` is escaped by the repair. */
  predicate BadAt(s: string, k: int)
    requires 0 <= k < |s|
  {
    s[k] == '&' && !Recognized(s[k..])
  }

  /** Some ampersand before offset `i` is escaped by the repair. */
  predicate SomeBadBefore(s: string, i: int)
    requires i <= |s|
  {
    exists k :: 0 <= k < i && BadAt(s, k)
  }

  lemma SomeBadBeforeStep(s: string, i: nat)
    requires i < |s|
    ensures SomeBadBefore(s, i + 1) <==> SomeBadBefore(s, i) || BadAt(s, i)
  {
  }

  /**
   * The repair as a character-by-character translation: each ampersand that does
   * not begin a recognised entity becomes "&amp;"; everything else is copied.
   */
  function FixEntities(s: string): string {
    if |s| == 0 then "" else Piece(s, 0) + FixEntities(s[1..])
  }

  /** What the repair writes for the character at offset `i`. */
  function Piece(s: string, i: int): string
    requires 0 <= i < |s|
  {
    if BadAt(s, i) then "&amp;" else [s[i]]
  }

  /** What the repair loop has written once it has passed the first `i` characters. */
  function RepairedPrefix(s: string, i: int): string
    requires 0 <= i <= |s|
  {
    if i == 0 then "" else RepairedPrefix(s, i - 1) + Piece(s, i - 1)
  }

  /** The ten-character window of line 139 never cuts a recognised entity short. */
  lemma WindowSuffices(s: string)
    ensures Recognized(s[..Min(10, |s|)]) <==> Recognized(s)
  {
    EntitiesShape();
    var w := s[..Min(10, |s|)];
    forall i | 0 <= i < |Entities| ensures StartsWith(w, Entities[i]) <==> StartsWith(s, Entities[i]) {
      if StartsWith(s, Entities[i]) {
        assert Entities[i] == s[..|Entities[i]|] == w[..|Entities[i]|];
      }
    }
  }

  /**
   * `fixXMLEntities` (lines 127-157). Null stays null; otherwise the result is
   * the repair of the whole text, and the warning is logged exactly when some
   * ampersand was escaped.
   */
  method FixXmlEntities(xml: Option<string>) returns (r: Option<string>, warned: bool)
    ensures r.None? <==> xml.None?
    ensures xml.Some? ==> r == Some(FixEntities(xml.value))
    ensures warned <==> xml.Some? && SomeBadBefore(xml.value, |xml.value|)
  {
    if xml.None? {
      return None, false;
    }
    var s := xml.value;
    var fixedXml := "";
    var isFixed := false;
    var i := 0;
    while i < |s|
      invariant 0 <= i <= |s|
      invariant fixedXml == RepairedPrefix(s, i)
      invariant isFixed <==> SomeBadBefore(s, i)
    {
      var c := s[i];
      RepairStep(s, i);
      if c == '&' {
        var sub := s[i..Min(i + 10, |s|)];
        if !StartsWith(sub, "&#") && !StartsWith(sub, "&lt;") && !StartsWith(sub, "&gt;")
           && !StartsWith(sub, "&amp;") && !StartsWith(sub, "&apos;") && !StartsWith(sub, "&quot;") {
          isFixed := true;
          fixedXml := fixedXml + "&amp;";
        } else {
          fixedXml := fixedXml + [c];
        }
      } else {
        fixedXml := fixedXml + [c];
      }
      i := i + 1;
    }
    RepairedPrefixIsFix(s);
    return Some(fixedXml), isFixed;
  }

  /**
   * One pass of the loop of lines 134-150: the six tests on the ten-character
   * window decide whether the character at `i` is escaped.
   */
  lemma RepairStep(s: string, i: nat)
    requires i < |s|
    ensures var sub := s[i..Min(i + 10, |s|)];
            var escaped := s[i] == '&'
              && !StartsWith(sub, "&#") && !StartsWith(sub, "&lt;") && !StartsWith(sub, "&gt;")
              && !StartsWith(sub, "&amp;") && !StartsWith(sub, "&apos;") && !StartsWith(sub, "&quot;");
            && RepairedPrefix(s, i + 1) == RepairedPrefix(s, i) + (if escaped then "&amp;" else [s[i]])
            && (SomeBadBefore(s, i + 1) <==> SomeBadBefore(s, i) || escaped)
  {
    SomeBadBeforeStep(s, i);
    WindowAt(s, i);
    RecognizedIsTheSixTests(s[i..Min(i + 10, |s|)]);
  }

  /** One step of the repair, at offset `i`. */
  lemma FixStep(s: string, i: nat)
    requires i < |s|
    ensures FixEntities(s[i..]) == Piece(s, i) + FixEntities(s[i + 1..])
  {
    assert s[i..][1..] == s[i + 1..];
    assert s[i..][0..] == s[i..];
  }

  /** The loop's output so far, followed by the repair of the rest, is the repair of the whole. */
  lemma {:induction false} RepairedPrefixSplit(s: string, i: nat)
    requires i <= |s|
    ensures RepairedPrefix(s, i) + FixEntities(s[i..]) == FixEntities(s)
  {
    if i == 0 {
      assert s[0..] == s;
    } else {
      RepairedPrefixSplit(s, i - 1);
      FixStep(s, i - 1);
    }
  }

  /** Once the loop has passed every character its output is the repair of the whole text. */
  lemma RepairedPrefixIsFix(s: string)
    ensures RepairedPrefix(s, |s|) == FixEntities(s)
  {
    RepairedPrefixSplit(s, |s|);
    assert s[|s|..] == [];
    assert RepairedPrefix(s, |s|) + "" == RepairedPrefix(s, |s|);
  }

  /** The window taken at offset `i` decides as the whole rest of the text would. */
  lemma WindowAt(s: string, i: nat)
    requires i < |s|
    ensures Recognized(s[i..Min(i + 10, |s|)]) <==> Recognized(s[i..])
  {
    WindowSuffices(s[i..]);
    assert s[i..Min(i + 10, |s|)] == s[i..][..Min(10, |s[i..]|)];
  }

  /** An ampersand-free prefix is copied unchanged. */
  lemma {:induction false} FixKeepsAmpersandFreePrefix(u: string, v: string)
    requires forall i :: 0 <= i < |u| ==> u[i] != '&'
    ensures FixEntities(u + v) == u + FixEntities(v)
  {
    if |u| > 0 {
      assert (u + v)[1..] == u[1..] + v;
      FixKeepsAmpersandFreePrefix(u[1..], v);
    } else {
      assert u + v == v;
    }
  }

  /** Text without an ampersand is left unchanged. */
  lemma NoAmpersandUnchanged(s: string)
    requires forall i :: 0 <= i < |s| ==> s[i] != '&'
    ensures FixEntities(s) == s
  {
    FixKeepsAmpersandFreePrefix(s, "");
    assert s + "" == s;
  }

  /** Text whose every ampersand begins a recognised entity is left unchanged. */
  lemma {:induction false} WellFormedUnchanged(s: string)
    requires forall k :: 0 <= k < |s| && s[k] == '&' ==> Recognized(s[k..])
    ensures FixEntities(s) == s
  {
    if |s| > 0 {
      forall k | 0 <= k < |s[1..]| && s[1..][k] == '&' ensures Recognized(s[1..][k..]) {
        assert s[1..][k..] == s[k + 1..];
      }
      WellFormedUnchanged(s[1..]);
    }
  }

  /** Every ampersand of the repaired text begins a recognised entity. */
  lemma {:induction false} FixedIsWellFormed(s: string)
    ensures forall k :: 0 <= k < |FixEntities(s)| && FixEntities(s)[k] == '&' ==> Recognized(FixEntities(s)[k..])
  {
    if |s| > 0 {
      var rest := FixEntities(s[1..]);
      FixedIsWellFormed(s[1..]);
      var out := FixEntities(s);
      var head := if BadAt(s, 0) then "&amp;" else [s[0]];
      assert out == head + rest;
      forall k | 0 <= k < |out| && out[k] == '&' ensures Recognized(out[k..]) {
        if k >= |head| {
          assert out[k..] == rest[k - |head|..];
        } else if BadAt(s, 0) {
          assert k == 0;
          assert out[k..] == out;
          assert StartsWith(out, Entities[3]);
        } else {
          assert k == 0 && s[0] == '&' && Recognized(s);
          RecognizedSurvives(s);
        }
      }
    }
  }

  /** A recognised entity at the start of the text is still there after the repair. */
  lemma RecognizedSurvives(s: string)
    requires |s| > 0 && s[0] == '&' && Recognized(s)
    ensures Recognized(FixEntities(s))
  {
    assert FixEntities(s) == [s[0]] + FixEntities(s[1..]);
    var i :| 0 <= i < |Entities| && StartsWith(s, Entities[i]);
    EntitiesShape();
    var entity := Entities[i];
    PrefixTail(entity, s);
    EntitySurvives(entity, s[1..]);
    assert StartsWith(FixEntities(s), entity);
  }

  /** Dropping the first character of a prefix and of the text keeps it a prefix. */
  lemma PrefixTail(p: string, s: string)
    requires |p| > 0 && p <= s
    ensures p[0] == s[0] && p[1..] <= s[1..]
  {
    assert p[1..] == s[1..][..|p| - 1];
  }

  /**
   * An entity whose body has no ampersand is copied unchanged by the repair: after
   * its first character, the repair of text that starts with the body starts with
   * the body again.
   */
  lemma EntitySurvives(entity: string, rest: string)
    requires |entity| > 0 && entity[1..] <= rest
    requires forall i :: 1 <= i < |entity| ==> entity[i] != '&'
    ensures entity <= [entity[0]] + FixEntities(rest)
  {
    var body, tail := entity[1..], rest[|entity| - 1..];
    assert rest == body + tail;
    FixKeepsAmpersandFreePrefix(body, tail);
    assert [entity[0]] + FixEntities(rest) == entity + FixEntities(tail);
  }

  /** The repair is idempotent. */
  lemma FixIsIdempotent(s: string)
    ensures FixEntities(FixEntities(s)) == FixEntities(s)
  {
    FixedIsWellFormed(s);
    WellFormedUnchanged(FixEntities(s));
  }

  /** The number of ampersands the repair escapes. */
  function BadCount(s: string): nat {
    if |s| == 0 then 0 else (if BadAt(s, 0) then 1 else 0) + BadCount(s[1..])
  }

  /** The repair adds four characters per escaped ampersand. */
  lemma {:induction false} FixLength(s: string)
    ensures |FixEntities(s)| == |s| + 4 * BadCount(s)
  {
    if |s| > 0 {
      FixLength(s[1..]);
    }
  }

  /** A stray ampersand is escaped. */
  lemma ExampleStrayAmpersand()
    ensures FixEntities("a&b") == "a&amp;b"
  {
    assert "a&b"[1..] == "&b";
    assert "&b"[1..] == "b";
    RecognizedIsTheSixTests("&b");
    assert FixEntities("b") == "b" by {
      assert "b"[1..] == "";
    }
  }

  /** Escaped angle brackets are left alone. */
  lemma ExampleEntitiesKept()
    ensures FixEntities("&lt;x&gt;") == "&lt;x&gt;"
  {
    var t := "&lt;x&gt;";
    forall k | 0 <= k < |t| && t[k] == '&' ensures Recognized(t[k..]) {
      if k == 5 {
        assert StartsWith(t[k..], Entities[2]);
      } else {
        assert k == 0;
        assert StartsWith(t[k..], Entities[1]);
      }
    }
    WellFormedUnchanged(t);
  }
}
