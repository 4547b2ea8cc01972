/**
  The locator synthesiser of the content script: `looksRandom`, `nthOfType`
  and `buildSelector`. A selector is either an attribute-equality selector
  (section 6.3.1 of W3C Selectors Level 3) for the first stable preferred
  attribute, or a structural path of at most five compound selectors joined
  by the child combinator `" > "` (section 8.2), each ending in
  `:nth-of-type(n)` (section 6.6.5.4) unless it is anchored on a stable id.
  `CSS.escape` is the parameter `esc`.
*/
module Locator {
  import opened Wrappers
  import opened Text
  import opened Dom

  predicate IsAsciiLetter(c: char) {
    'A' <= c <= 'Z' || 'a' <= c <= 'z'
  }

  predicate IsAsciiAlnum(c: char) {
    IsAsciiLetter(c) || IsDigit(c)
  }

  /** `s[i..i + k]` is a run of ASCII letters and digits. */
  predicate AlnumRunAt(s: string, i: nat, k: nat) {
    i + k <= |s| && forall j :: i <= j < i + k ==> IsAsciiAlnum(s[j])
  }

  /** The regular expression `[A-Za-z0-9]{k}` matches at the start of `s`. */
  predicate StartsWithAlnumRun(s: string, k: nat)
    ensures StartsWithAlnumRun(s, k) <==> AlnumRunAt(s, 0, k)
  {
    if k == 0 then true
    else if |s| == 0 || !IsAsciiAlnum(s[0]) then false
    else
      var rest := StartsWithAlnumRun(s[1..], k - 1);
      assert AlnumRunAt(s[1..], 0, k - 1) <==> AlnumRunAt(s, 1, k - 1) by {
        assert forall j :: 1 <= j < k && j < |s| ==> s[j] == s[1..][j - 1];
      }
      rest
  }

  /** `/[A-Za-z0-9]{k,}/.test(s)`: the pattern is tried at each position from the left. */
  predicate SearchAlnumRun(s: string, k: nat)
    ensures SearchAlnumRun(s, k) <==> exists i: nat :: AlnumRunAt(s, i, k)
  {
    if StartsWithAlnumRun(s, k) then true
    else if |s| == 0 then
      assert forall i: nat :: !AlnumRunAt(s, i, k) by {
        forall i: nat ensures !AlnumRunAt(s, i, k) {
          if i > 0 || k > 0 { }
        }
      }
      false
    else
      var rest := SearchAlnumRun(s[1..], k);
      assert forall i: nat :: AlnumRunAt(s[1..], i, k) <==> AlnumRunAt(s, i + 1, k) by {
        forall i: nat ensures AlnumRunAt(s[1..], i, k) <==> AlnumRunAt(s, i + 1, k) {
          assert forall j :: i <= j < i + k && i + k <= |s| - 1 ==> s[1..][j] == s[j + 1];
        }
      }
      assert (exists i: nat :: AlnumRunAt(s, i, k)) ==> exists i: nat :: AlnumRunAt(s[1..], i, k) by {
        if exists i: nat :: AlnumRunAt(s, i, k) {
          var i: nat :| AlnumRunAt(s, i, k);
          assert i != 0;
          assert AlnumRunAt(s[1..], i - 1, k);
        }
      }
      rest
  }

  /** `/[0-9]/.test(s)`. */
  predicate HasDigit(s: string)
    ensures HasDigit(s) <==> exists i :: 0 <= i < |s| && IsDigit(s[i])
  {
    if s == [] then false
    else
      assert forall i :: 1 <= i < |s| ==> s[i] == s[1..][i - 1];
      IsDigit(s[0]) || HasDigit(s[1..])
  }

  /** `/[A-Za-z]/.test(s)`. */
  predicate HasLetter(s: string)
    ensures HasLetter(s) <==> exists i :: 0 <= i < |s| && IsAsciiLetter(s[i])
  {
    if s == [] then false
    else
      assert forall i :: 1 <= i < |s| ==> s[i] == s[1..][i - 1];
      IsAsciiLetter(s[0]) || HasLetter(s[1..])
  }

  /** `looksRandom`: a token looks machine-generated when it holds a run of at
      least six ASCII letters or digits, and has a digit and a letter somewhere. */
  function LooksRandom(s: string): (r: bool)
    ensures r <==> && (exists i: nat :: AlnumRunAt(s, i, 6))
                   && (exists i :: 0 <= i < |s| && IsDigit(s[i]))
                   && (exists i :: 0 <= i < |s| && IsAsciiLetter(s[i]))
  {
    SearchAlnumRun(s, 6) && HasDigit(s) && HasLetter(s)
  }

  /** A generated-looking token, a word with a hyphen, and a token too short
      for the six-character run, decided as `looksRandom` decides them. */
  lemma LooksRandomExamples()
    ensures LooksRandom("a1b2c3x9")
    ensures !LooksRandom("submit-btn")
    ensures !LooksRandom("ab1-cd")
  {
    assert AlnumRunAt("a1b2c3x9", 0, 6);
    assert IsDigit("a1b2c3x9"[1]);
    assert IsAsciiLetter("a1b2c3x9"[0]);
    var s := "ab1-cd";
    forall i: nat ensures !AlnumRunAt(s, i, 6) {
      if i == 0 { assert !IsAsciiAlnum(s[3]); }
    }
    var t := "submit-btn";
    forall i | 0 <= i < |t| ensures !IsDigit(t[i]) {
    }
  }

  /** The attributes tried, in this order, before falling back to a path. */
  const PreferredAttributes: seq<string> :=
    ["data-testid", "data-test", "data-qa", "id", "name", "role", "aria-label"]

  /** Attribute `a` of `el` can anchor a selector: it is set, not "", and does not look random. */
  predicate Anchors(el: Element, a: string) {
    var v := el.GetAttribute(a);
    v.Some? && v.value != "" && !LooksRandom(v.value)
  }

  /** The position in `names` of the first attribute that anchors `el`. */
  function FirstAnchoring(el: Element, names: seq<string>): (r: Option<nat>)
    ensures r.Some? ==> r.value < |names| && Anchors(el, names[r.value])
    ensures r.Some? ==> forall j :: 0 <= j < r.value ==> !Anchors(el, names[j])
    ensures r.None? ==> forall j :: 0 <= j < |names| ==> !Anchors(el, names[j])
  {
    if names == [] then None
    else if Anchors(el, names[0]) then Some(0)
    else
      var r := FirstAnchoring(el, names[1..]);
      assert forall j :: 1 <= j < |names| ==> names[j] == names[1..][j - 1];
      if r.Some? then Some(r.value + 1) else None
  }

  /** `[a="esc(v)"]`. */
  function AttributeSelector(a: string, v: string, esc: string -> string): string {
    "[" + a + "=\"" + esc(v) + "\"]"
  }

  /** `className.split(/\s+/)`, from a piece `cur` already begun: the text between
      maximal runs of white space, with an empty first (last) piece when `s`
      starts (ends) with white space. */
  function SplitFrom(s: string, cur: string): seq<string>
    decreases |s|
  {
    if s == [] then [cur]
    else if IsSpace(s[0]) then [cur] + SplitFrom(s[1 + LeadingSpaces(s[1..])..], "")
    else SplitFrom(s[1..], cur + [s[0]])
  }

  /** A class name worth keeping: `c && !looksRandom(c)`. */
  predicate StableClass(c: string) {
    c != "" && !LooksRandom(c)
  }

  /** `.filter(c => c && !looksRandom(c))`. */
  function StableClasses(cs: seq<string>): seq<string> {
    if cs == [] then []
    else (if StableClass(cs[0]) then [cs[0]] else []) + StableClasses(cs[1..])
  }

  /** The kept classes are exactly the stable ones among `cs`. */
  lemma {:induction false} StableClassesMembers(cs: seq<string>)
    ensures forall c :: c in StableClasses(cs) <==> c in cs && StableClass(c)
  {
    if cs != [] {
      StableClassesMembers(cs[1..]);
      assert cs == [cs[0]] + cs[1..];
    }
  }

  /** Filtering a list filters each part in turn: the stable classes keep
      their order and their repetitions. */
  lemma {:induction false} StableClassesAppend(a: seq<string>, b: seq<string>)
    ensures StableClasses(a + b) == StableClasses(a) + StableClasses(b)
  {
    if a == [] {
      assert a + b == b;
    } else {
      assert (a + b)[1..] == a[1..] + b;
      StableClassesAppend(a[1..], b);
    }
  }

  /** A single class is kept exactly when it is stable. */
  lemma StableClassesOne(c: string)
    ensures StableClasses([c]) == if StableClass(c) then [c] else []
  {
    assert [c][1..] == [];
  }

  /** The classes a path segment keeps: the first two stable ones, `.slice(0, 2)`. */
  function KeptClasses(el: Element): (r: seq<string>)
    ensures |r| <= 2
  {
    var cs := StableClasses(SplitFrom(el.ClassName(), ""));
    if |cs| <= 2 then cs else cs[..2]
  }

  /** The kept classes are the first two stable classes in attribute order,
      or all of them when there are fewer. */
  lemma KeptClassesFirstTwo(el: Element)
    ensures var all := StableClasses(SplitFrom(el.ClassName(), ""));
      var r := KeptClasses(el);
      |r| == (if |all| < 2 then |all| else 2) && r == all[..|r|]
    ensures forall c :: c in KeptClasses(el) ==> StableClass(c)
  {
    var all := StableClasses(SplitFrom(el.ClassName(), ""));
    StableClassesMembers(SplitFrom(el.ClassName(), ""));
    assert forall c :: c in all[..|KeptClasses(el)|] ==> c in all;
  }

  /** How many of `tags` equal `tag`. */
  function CountTag(tags: seq<string>, tag: string): (n: nat)
    ensures n <= |tags|
  {
    if tags == [] then 0
    else CountTag(tags[..|tags| - 1], tag) + (if tags[|tags| - 1] == tag then 1 else 0)
  }

  /** Counting by hand agrees with the multiplicity of `tag` among `tags`. */
  lemma {:induction false} CountTagMultiplicity(tags: seq<string>, tag: string)
    ensures CountTag(tags, tag) == multiset(tags)[tag]
  {
    if tags != [] {
      var n := |tags| - 1;
      CountTagMultiplicity(tags[..n], tag);
      assert tags == tags[..n] + [tags[n]];
      assert multiset(tags) == multiset(tags[..n]) + multiset{tags[n]};
    }
  }

  /** The `n` of `:nth-of-type(n)` for `el`: one more than its earlier siblings with the same tag. */
  function OfTypeIndex(el: Element): nat {
    1 + CountTag(el.earlierSiblings, el.tagName)
  }

  /** `nthOfType`: walks the earlier siblings, counting those with `el`'s tag. */
  method NthOfType(el: Element) returns (n: nat)
    ensures n == OfTypeIndex(el)
    ensures 1 <= n <= 1 + |el.earlierSiblings|
  {
    var sibs := el.earlierSiblings;
    n := 1;
    var k := 0;
    while k < |sibs|
      invariant 0 <= k <= |sibs|
      invariant n == 1 + CountTag(sibs[..k], el.tagName)
    {
      assert sibs[..k + 1][..k] == sibs[..k];
      if sibs[k] == el.tagName {
        n := n + 1;
      }
      k := k + 1;
    }
    assert sibs[..k] == sibs;
  }

  /** One compound selector of a structural path. */
  datatype Segment =
      /** `tag#id`, for an element with a stable id; it ends the walk */
    | IdSegment(tag: string, id: string)
      /** `tag.c1.c2:nth-of-type(n)` */
    | TypeSegment(tag: string, classes: seq<string>, nth: nat)

  /** The segment the walk emits for `el`. */
  function SegmentFor(el: Element): Segment {
    var id := el.Id();
    if id != "" && !LooksRandom(id) then IdSegment(LowerAscii(el.tagName), id)
    else TypeSegment(LowerAscii(el.tagName), KeptClasses(el), OfTypeIndex(el))
  }

  function EscapeAll(cs: seq<string>, esc: string -> string): seq<string> {
    seq(|cs|, i requires 0 <= i < |cs| => esc(cs[i]))
  }

  function RenderSegment(seg: Segment, esc: string -> string): string {
    match seg
    case IdSegment(tag, id) => tag + ("#" + esc(id))
    case TypeSegment(tag, classes, nth) =>
      tag + (if |classes| > 0 then "." + Join(EscapeAll(classes, esc), ".") else "")
      + (":nth-of-type(" + NatToString(nth) + ")")
  }

  function RenderPath(path: seq<Segment>, esc: string -> string): seq<string> {
    if path == [] then [] else [RenderSegment(path[0], esc)] + RenderPath(path[1..], esc)
  }

  lemma RenderPathCons(seg: Segment, path: seq<Segment>, esc: string -> string)
    ensures RenderPath([seg] + path, esc) == [RenderSegment(seg, esc)] + RenderPath(path, esc)
  {
    assert ([seg] + path)[1..] == path;
  }

  /** The walk allows at most this many levels, the element itself included. */
  const MaxDepth: nat := 5

  /** The segments the walk emits from `cur`, which it reaches at level `depth`,
      ordered from the topmost ancestor down to `cur`. */
  function PathFrom(cur: Option<Element>, depth: nat): seq<Segment>
    decreases MaxDepth - depth
  {
    if cur.None? || depth >= MaxDepth then []
    else
      var seg := SegmentFor(cur.value);
      if seg.IdSegment? then [seg] else PathFrom(cur.value.parent, depth + 1) + [seg]
  }

  lemma ConcatAssoc<T>(a: seq<T>, b: seq<T>, c: seq<T>)
    ensures a + (b + c) == (a + b) + c
  {
  }

  /** The walk as the loop runs it: segments are put in front of `acc`, the
      ones already emitted below `cur`. */
  function PathOnto(cur: Option<Element>, depth: nat, acc: seq<Segment>): seq<Segment>
    decreases MaxDepth - depth
  {
    if cur.None? || depth >= MaxDepth then acc
    else
      var seg := SegmentFor(cur.value);
      if seg.IdSegment? then [seg] + acc else PathOnto(cur.value.parent, depth + 1, [seg] + acc)
  }

  /** One level of `PathOnto`: an id segment ends the walk, a type segment goes on to the parent. */
  lemma PathOntoStep(c: Element, depth: nat, acc: seq<Segment>)
    requires depth < MaxDepth
    ensures SegmentFor(c).IdSegment? ==> PathOnto(Some(c), depth, acc) == [SegmentFor(c)] + acc
    ensures SegmentFor(c).TypeSegment? ==> PathOnto(Some(c), depth, acc) == PathOnto(c.parent, depth + 1, [SegmentFor(c)] + acc)
  {
  }

  /** Putting segments in front of `acc` as the walk goes is appending `acc` to its path. */
  lemma {:induction false} PathOntoFrom(cur: Option<Element>, depth: nat, acc: seq<Segment>)
    ensures PathOnto(cur, depth, acc) == PathFrom(cur, depth) + acc
    decreases MaxDepth - depth
  {
    if cur.Some? && depth < MaxDepth && SegmentFor(cur.value).TypeSegment? {
      var seg := SegmentFor(cur.value);
      PathOntoFrom(cur.value.parent, depth + 1, [seg] + acc);
      ConcatAssoc(PathFrom(cur.value.parent, depth + 1), [seg], acc);
    }
  }

  /** The walk emits at most one segment per level it has left, and at least
      one when it starts on an element below the limit. */
  lemma {:induction false} PathLength(cur: Option<Element>, depth: nat)
    requires depth <= MaxDepth
    ensures |PathFrom(cur, depth)| <= MaxDepth - depth
    ensures cur.Some? && depth < MaxDepth ==> |PathFrom(cur, depth)| >= 1
    decreases MaxDepth - depth
  {
    if cur.Some? && depth < MaxDepth && SegmentFor(cur.value).TypeSegment? {
      PathLength(cur.value.parent, depth + 1);
    }
  }

  /** The path from `el` ends in `el`'s segment; when it is longer than that,
      what comes before is the path from `el`'s parent. */
  lemma PathLastAndParent(el: Element, depth: nat)
    requires |PathFrom(Some(el), depth)| >= 1
    ensures var p := PathFrom(Some(el), depth); p[|p| - 1] == SegmentFor(el)
    ensures |PathFrom(Some(el), depth)| >= 2 ==>
      el.parent.Some? && PathFrom(Some(el), depth) == PathFrom(el.parent, depth + 1) + [SegmentFor(el)]
  {
  }

  /** Only the topmost segment of a path can be anchored on an id. */
  lemma {:induction false} PathAnchorsOnlyAtTop(cur: Option<Element>, depth: nat)
    ensures forall i :: 0 < i < |PathFrom(cur, depth)| ==> PathFrom(cur, depth)[i].TypeSegment?
    decreases MaxDepth - depth
  {
    if cur.Some? && depth < MaxDepth && SegmentFor(cur.value).TypeSegment? {
      PathAnchorsOnlyAtTop(cur.value.parent, depth + 1);
      var q := PathFrom(cur.value.parent, depth + 1);
      var seg := SegmentFor(cur.value);
      var p := PathFrom(cur, depth);
      assert p == q + [seg];
      forall i | 0 < i < |p|
        ensures p[i].TypeSegment?
      {
        if i < |q| {
          assert p[i] == q[i];
        } else {
          assert p[i] == seg;
        }
      }
    }
  }

  /** The walk stops short of `MaxDepth` levels only at an element anchored on
      a stable id, or because the chain of ancestors has ended. */
  lemma {:induction false} PathStopsAtAnchorOrRoot(el: Element, depth: nat)
    requires depth < MaxDepth
    ensures var p := PathFrom(Some(el), depth);
      |p| < MaxDepth - depth ==> p[0].IdSegment? || Ancestor(el, |p|).None?
    decreases MaxDepth - depth
  {
    PathLength(Some(el), depth);
    if SegmentFor(el).TypeSegment? {
      match el.parent
      case None =>
      case Some(up) =>
        if depth + 1 < MaxDepth {
          PathStopsAtAnchorOrRoot(up, depth + 1);
          PathLength(Some(up), depth + 1);
          var q := PathFrom(Some(up), depth + 1);
          var p := PathFrom(Some(el), depth);
          assert |p| == |q| + 1 && p[0] == q[0];
          assert Ancestor(el, |p|) == Ancestor(up, |q|);
        }
    }
  }

  /** When no preferred attribute anchors `el`, the path ends in a segment for
      `el` itself, located by its position among siblings of its type. */
  lemma FallbackEndsAtTarget(el: Element)
    requires FirstAnchoring(el, PreferredAttributes).None?
    ensures var p := PathFrom(Some(el), 0);
      |p| >= 1 && p[|p| - 1] == SegmentFor(el) && p[|p| - 1].TypeSegment?
      && p[|p| - 1].nth == OfTypeIndex(el) >= 1
  {
    assert PreferredAttributes[3] == "id";
    assert !Anchors(el, "id");
  }

  /** What `buildSelector` returns for `node`. */
  function SelectorOf(node: Option<Node>, esc: string -> string): string {
    if node.None? || node.value.OtherNode? then ""
    else
      var el := node.value.element;
      match FirstAnchoring(el, PreferredAttributes)
      case Some(k) => AttributeSelector(PreferredAttributes[k], el.GetAttribute(PreferredAttributes[k]).value, esc)
      case None => Join(RenderPath(PathFrom(Some(el), 0), esc), " > ")
  }

  /** A usable test id wins over every other attribute and over the path. */
  lemma TestIdTakesPriority(el: Element, esc: string -> string)
    requires Anchors(el, "data-testid")
    ensures SelectorOf(Some(ElementNode(el)), esc)
         == "[data-testid=\"" + esc(el.GetAttribute("data-testid").value) + "\"]"
  {
    assert FirstAnchoring(el, PreferredAttributes) == Some(0);
  }

  /** A test id that looks generated is passed over: the next usable attribute
      in the preference order decides. */
  lemma RandomTestIdSkipped(el: Element, esc: string -> string)
    requires el.GetAttribute("data-testid").Some? && LooksRandom(el.GetAttribute("data-testid").value)
    requires Anchors(el, "data-test")
    ensures SelectorOf(Some(ElementNode(el)), esc)
         == "[data-test=\"" + esc(el.GetAttribute("data-test").value) + "\"]"
  {
    FirstAnchoringSecond(el, PreferredAttributes);
  }

  /** The first name does not anchor and the second does: the second is chosen. */
  lemma FirstAnchoringSecond(el: Element, names: seq<string>)
    requires |names| >= 2 && !Anchors(el, names[0]) && Anchors(el, names[1])
    ensures FirstAnchoring(el, names) == Some(1)
  {
    assert FirstAnchoring(el, names[1..]) == Some(0);
  }

  /** `buildSelector`: the preference pass over `PreferredAttributes`, then the
      walk up at most `MaxDepth` levels. */
  method BuildSelector(node: Option<Node>, esc: string -> string) returns (sel: string)
    ensures sel == SelectorOf(node, esc)
  {
    if node.None? || node.value.OtherNode? {
      return "";
    }
    var el := node.value.element;
    var k := 0;
    while k < |PreferredAttributes|
      invariant 0 <= k <= |PreferredAttributes|
      invariant forall j :: 0 <= j < k ==> !Anchors(el, PreferredAttributes[j])
    {
      var a := PreferredAttributes[k];
      var v := el.GetAttribute(a);
      if v.Some? && v.value != "" && !LooksRandom(v.value) {
        return AttributeSelector(a, v.value, esc);
      }
      k := k + 1;
    }
    assert FirstAnchoring(el, PreferredAttributes).None?;
    sel := WalkUp(el, esc);
  }

  /** The structural half of `buildSelector`: from `el` upwards, prepend one
      segment per level, stopping after an id anchor, at the root, or after
      `MaxDepth` levels; join with `" > "`. */
  method WalkUp(el: Element, esc: string -> string) returns (sel: string)
    ensures sel == Join(RenderPath(PathFrom(Some(el), 0), esc), " > ")
  {
    ghost var whole := PathFrom(Some(el), 0);
    PathOntoFrom(Some(el), 0, []);
    assert whole + [] == whole;
    ghost var done: seq<Segment> := [];
    var path: seq<string> := [];
    var cur: Option<Element> := Some(el);
    var depth: nat := 0;
    while cur.Some? && depth < MaxDepth
      invariant depth <= MaxDepth
      invariant PathOnto(cur, depth, done) == whole
      invariant path == RenderPath(done, esc)
      decreases MaxDepth - depth
    {
      var c := cur.value;
      ghost var seg := SegmentFor(c);
      var part, anchored := LevelPart(c, esc);
      RenderPathCons(seg, done, esc);
      PathOntoStep(c, depth, done);
      path := [part] + path;
      done := [seg] + done;
      if anchored {
        break;
      }
      cur := c.parent;
      depth := depth + 1;
    }
    assert done == whole;
    sel := Join(path, " > ");
  }

  /** The text one level of the walk contributes for `c`, and whether `c`'s
      stable id ends the walk there. */
  method LevelPart(c: Element, esc: string -> string) returns (part: string, anchored: bool)
    ensures part == RenderSegment(SegmentFor(c), esc)
    ensures anchored <==> SegmentFor(c).IdSegment?
  {
    part := LowerAscii(c.tagName);
    var id := c.Id();
    if id != "" && !LooksRandom(id) {
      part := part + ("#" + esc(id));
      return part, true;
    }
    var cls := EscapeAll(KeptClasses(c), esc);
    if |cls| > 0 {
      part := part + ("." + Join(cls, "."));
    }
    var nth := NthOfType(c);
    part := part + (":nth-of-type(" + NatToString(nth) + ")");
    anchored := false;
  }
}
