/** XML documents as trees of tags, whoever wrote them: any attributes, any blanks between the parts, tags
    that are closed at once or later. How the reader without libxml (src/topology-xml.c) finds the parts. */
module XmlNodes {
  import opened Collections
  import opened XmlObjects
  import opened XmlParser

  // ---- Spaces and names ----

  predicate AllSpaces(text: string) {
    forall k :: 0 <= k < |text| ==> IsSpace(text[k])
  }

  predicate AllNameChars(text: string) {
    forall k :: 0 <= k < |text| ==> IsNameChar(text[k])
  }

  lemma {:induction false} SpacesCount(ws: string, rest: string)
    requires AllSpaces(ws) && (rest == "" || !IsSpace(rest[0]))
    ensures SpaceCount(ws + rest) == |ws| && SkipSpaces(ws + rest) == rest
  {
    if ws == "" {
      assert ws + rest == rest;
    } else {
      SpacesCount(ws[1..], rest);
      assert (ws + rest)[1..] == ws[1..] + rest;
    }
  }

  lemma {:induction false} NameCount(name: string, rest: string)
    requires AllNameChars(name) && (rest == "" || !IsNameChar(rest[0]))
    ensures NameLength(name + rest) == |name|
  {
    if name == "" {
      assert name + rest == rest;
    } else {
      NameCount(name[1..], rest);
      assert (name + rest)[1..] == name[1..] + rest;
    }
  }

  lemma {:induction false} FindAfter(text: string, c: char, rest: string)
    requires c !in text && rest != "" && rest[0] == c
    ensures Find(text + rest, c) == |text|
  {
    if text == "" {
      assert text + rest == rest;
    } else {
      assert text[0] in text;
      FindAfter(text[1..], c, rest);
      assert (text + rest)[1..] == text[1..] + rest;
    }
  }

  lemma {:induction false} ValueRead(text: string, rest: string)
    requires '\"' !in text && '&' !in text && rest != "" && rest[0] == '\"'
    ensures ValueLength(text + rest) == |text|
  {
    if text == "" {
      assert text + rest == rest;
    } else {
      assert text[0] in text;
      ValueRead(text[1..], rest);
      assert (text + rest)[1..] == text[1..] + rest;
    }
  }

  // ---- Documents ----

  /** `raw` is what stands between the quotes. */
  datatype Attribute = Attribute(gap: string, name: string, raw: string)

  /** A tag with what is inside; `lead` is the blank before it, `after` the one after the attributes and
      `tail` the one before the closing tag. */
  datatype Node = Node(lead: string, name: string, attrs: seq<Attribute>, after: string, closed: bool,
                       children: seq<Node>, tail: string)

  function AttrText(a: Attribute): string {
    a.gap + (a.name + ("=\"" + (a.raw + "\"")))
  }

  function AttrsText(attrs: seq<Attribute>): string {
    if attrs == [] then "" else AttrText(attrs[0]) + AttrsText(attrs[1..])
  }

  /** All between the name and the end of a tag. */
  function Region(n: Node): string {
    AttrsText(n.attrs) + n.after
  }

  function Text(n: Node): string
    decreases n, 1
  {
    n.lead + ("<" + (n.name + Region(n) + (if n.closed then "/" else "") + (">" + Inner(n))))
  }

  /** What follows the opening tag. */
  function Inner(n: Node): string
    decreases n, 0
  {
    if n.closed then "" else Texts(n.children) + (n.tail + ("</" + n.name + ">"))
  }

  function Texts(nodes: seq<Node>): string
    decreases nodes
  {
    if nodes == [] then "" else Text(nodes[0]) + Texts(nodes[1..])
  }

  /** An attribute has no quote in its value; no `>` comes before the end of a tag. */
  predicate GoodAttr(a: Attribute) {
    && AllSpaces(a.gap) && (a.name != "" ==> !IsSpace(a.name[0])) && '=' !in a.name && '>' !in a.name
    && '\"' !in a.raw && '>' !in a.raw
  }

  predicate GoodAttrs(attrs: seq<Attribute>) {
    forall k :: 0 <= k < |attrs| ==> GoodAttr(attrs[k])
  }

  /** A tag that the reader can take apart. A name must be followed by a blank. */
  predicate GoodNode(n: Node)
    decreases n
  {
    && AllSpaces(n.lead) && AllSpaces(n.after) && AllSpaces(n.tail) && GoodAttrs(n.attrs)
    && n.name != "" && AllNameChars(n.name) && Region(n) != "" && Region(n)[0] == ' '
    && (n.closed ==> n.children == [])
    && (n.name == "info" ==> n.children == [])
    && forall k :: 0 <= k < |n.children| ==> GoodNode(n.children[k])
  }

  // ---- Attributes ----

  /** Names with other characters than `a` to `z` and `_`, and values with a `&`, end the reading. */
  predicate IsRead(a: Attribute) {
    AllNameChars(a.name) && '&' !in a.raw
  }

  function ReadAttrs(attrs: seq<Attribute>): seq<Prop> {
    if attrs == [] || !IsRead(attrs[0]) then [] else [(attrs[0].name, attrs[0].raw)] + ReadAttrs(attrs[1..])
  }

  lemma BlankFirst(text: string)
    requires text != "" && text[0] == ' '
    ensures SkipSpaces(text[1..]) == SkipSpaces(text)
  {
  }

  lemma {:induction false} SkipTwice(text: string)
    ensures SkipSpaces(SkipSpaces(text)) == SkipSpaces(text)
    decreases |text|
  {
    if text != "" && IsSpace(text[0]) {
      SkipTwice(text[1..]);
    }
  }

  lemma SameAttrs(a: string, b: string)
    requires SkipSpaces(a) == SkipSpaces(b)
    ensures AllAttrs(a) == AllAttrs(b)
  {
    hide SkipSpaces, NameLength, ValueLength;
    assert NextAttr(a) == NextAttr(b);
  }

  /** The name is followed by `="`. */
  lemma NamedAttr(name: string, tail: string)
    requires '=' !in name
    ensures
      var text := name + ("=\"" + tail);
      var n := NameLength(text);
      && n <= |name| && (AllNameChars(name) <==> n == |name|) && (n < |name| ==> text[n] != '=')
      && text[|name|] == '=' && text[|name| + 1] == '\"' && text[|name| + 2..] == tail
  {
    var text := name + ("=\"" + tail);
    NameCutsOff(name, "=\"" + tail);
  }

  lemma {:induction false} NameCutsOff(name: string, rest: string)
    requires rest != "" && rest[0] == '='
    ensures NameLength(name + rest) <= |name| && (AllNameChars(name) <==> NameLength(name + rest) == |name|)
  {
    if name == "" {
      assert name + rest == rest;
    } else {
      NameCutsOff(name[1..], rest);
      assert (name + rest)[1..] == name[1..] + rest;
      assert AllNameChars(name) <==> IsNameChar(name[0]) && AllNameChars(name[1..]);
    }
  }

  lemma {:induction false} RawRead(raw: string, rest: string)
    requires '\"' !in raw && rest != "" && rest[0] == '\"'
    ensures
      var n := ValueLength(raw + rest);
      if '&' in raw then n < |raw| && raw[n] == '&' else n == |raw|
  {
    if raw == "" {
      assert raw + rest == rest;
    } else {
      RawRead(raw[1..], rest);
      assert (raw + rest)[1..] == raw[1..] + rest && raw == [raw[0]] + raw[1..];
    }
  }

  lemma FirstAttr(a: Attribute, rest: string)
    requires GoodAttr(a)
    ensures NextAttr(AttrText(a) + rest) == if IsRead(a) then Attr(a.name, a.raw, SkipSpaces(rest)) else NoAttr
  {
    hide SkipSpaces, NameLength, ValueLength, AllNameChars, AllSpaces;
    var tail := a.raw + ("\"" + rest);
    var buffer := a.name + ("=\"" + tail);
    assert AttrText(a) + rest == a.gap + buffer;
    assert buffer[0] == if a.name == "" then '=' else a.name[0];
    SpacesCount(a.gap, buffer);
    NamedAttr(a.name, tail);
    RawRead(a.raw, "\"" + rest);
    if IsRead(a) {
      assert tail[..|a.raw|] == a.raw && tail[|a.raw| + 1..] == rest;
      assert buffer[..|a.name|] == a.name;
    }
  }

  lemma {:induction false} AttrsRead(attrs: seq<Attribute>, after: string)
    requires GoodAttrs(attrs) && AllSpaces(after)
    ensures AllAttrs(AttrsText(attrs) + after) == Attrs(ReadAttrs(attrs))
    decreases |attrs|
  {
    hide NextAttr, AttrText, GoodAttr, IsRead, SkipSpaces;
    if attrs == [] {
      assert AttrsText([]) + after == after;
      NoAttrs(after);
    } else {
      var rest := AttrsText(attrs[1..]) + after;
      assert AttrsText(attrs) + after == AttrText(attrs[0]) + rest;
      FirstAttr(attrs[0], rest);
      if IsRead(attrs[0]) {
        SkipTwice(rest);
        SameAttrs(SkipSpaces(rest), rest);
        AttrsRead(attrs[1..], after);
      }
    }
  }

  lemma NoAttrs(after: string)
    requires AllSpaces(after)
    ensures NextAttr(after) == NoAttr
  {
    hide AllSpaces;
    SpacesCount(after, "");
    assert after + "" == after;
  }

  lemma RegionRead(n: Node)
    requires GoodNode(n)
    ensures AllAttrs(Region(n)[1..]) == Attrs(ReadAttrs(n.attrs))
  {
    hide AllAttrs, SkipSpaces, AllNameChars, AllSpaces, GoodAttrs;
    BlankFirst(Region(n));
    SameAttrs(Region(n)[1..], Region(n));
    AttrsRead(n.attrs, n.after);
  }

  // ---- Tags ----

  lemma NoCloseInName(name: string)
    requires AllNameChars(name)
    ensures '>' !in name
  {
  }

  lemma OpenParts(ws: string, inside: string, closed: bool, rest: string)
    requires AllSpaces(ws) && '>' !in inside && inside != "" && inside[0] != '/'
    requires !closed ==> inside[|inside| - 1] != '/'
    ensures OpenTag(ws + ("<" + (inside + (if closed then "/" else "") + (">" + rest)))) ==
        TagParts(inside, closed, rest)
  {
    hide SpaceCount, SkipSpaces, TagParts, Find;
    var before := inside + if closed then "/" else "";
    var tag := before + (">" + rest);
    SpacesCount(ws, "<" + tag);
    assert ("<" + tag)[1..] == tag;
    FindAfter(before, '>', ">" + rest);
    assert tag[..|before|] == before && tag[|before| + 1..] == rest;
    assert tag[|before| - 1] == before[|before| - 1];
    assert tag[..|inside|] == inside;
  }

  lemma PartsFound(name: string, region: string, closed: bool, rest: string)
    requires AllNameChars(name) && region != "" && region[0] == ' '
    ensures TagParts(name + region, closed, rest) == Child(name, region[1..], closed, rest)
  {
    hide NameLength;
    NameCount(name, region);
    assert (name + region)[..|name|] == name && (name + region)[|name| + 1..] == region[1..];
  }

  lemma AttrIsSafe(a: Attribute)
    requires GoodAttr(a)
    ensures '>' !in AttrText(a) && |AttrText(a)| > 0 && AttrText(a)[|AttrText(a)| - 1] == '\"'
  {
    NoCloseInSpaces(a.gap);
    var end := a.raw + "\"";
    assert AttrText(a) == (a.gap + (a.name + ("=\"" + a.raw))) + "\"";
  }

  lemma NoCloseInSpaces(text: string)
    requires AllSpaces(text)
    ensures '>' !in text && '/' !in text
  {
  }

  lemma {:induction false} AttrsAreSafe(attrs: seq<Attribute>)
    requires GoodAttrs(attrs)
    ensures '>' !in AttrsText(attrs)
    ensures attrs != [] ==> |AttrsText(attrs)| > 0 && AttrsText(attrs)[|AttrsText(attrs)| - 1] == '\"'
  {
    hide AttrText, GoodAttr;
    if attrs != [] {
      AttrIsSafe(attrs[0]);
      AttrsAreSafe(attrs[1..]);
    }
  }

  lemma RegionIsSafe(n: Node)
    requires GoodNode(n)
    ensures '>' !in Region(n) && Region(n)[|Region(n)| - 1] != '/'
  {
    hide AllSpaces, AllNameChars, GoodAttrs, AttrsText;
    AttrsAreSafe(n.attrs);
    NoCloseInSpaces(n.after);
    assert n.after != "" ==> n.after[|n.after| - 1] in n.after;
    assert n.attrs == [] ==> AttrsText(n.attrs) == "" by { NoAttrsText(); }
  }

  lemma NoAttrsText()
    ensures AttrsText([]) == ""
  {
  }

  /** The opening tag of a node is found, wherever it is. */
  lemma NodeFound(n: Node, rest: string)
    requires GoodNode(n)
    ensures OpenTag(Text(n) + rest) == Child(n.name, Region(n)[1..], n.closed, Inner(n) + rest)
  {
    hide OpenTag, Region, Inner, AllSpaces, AllNameChars, GoodAttrs, TagParts;
    NamedRegion(n);
    var inside := n.name + Region(n);
    OpenParts(n.lead, inside, n.closed, Inner(n) + rest);
    PartsFound(n.name, Region(n), n.closed, Inner(n) + rest);
    TextApart(n.lead, inside + (if n.closed then "/" else ""), Inner(n), rest);
  }

  lemma NamedRegion(n: Node)
    requires GoodNode(n)
    ensures
      var inside := n.name + Region(n);
      '>' !in inside && inside != "" && inside[0] != '/' && inside[|inside| - 1] != '/'
  {
    hide AllSpaces, GoodAttrs, Region;
    RegionIsSafe(n);
    NoCloseInName(n.name);
    assert IsNameChar(n.name[0]);
  }

  lemma TextApart(lead: string, inside: string, inner: string, rest: string)
    ensures lead + ("<" + (inside + (">" + inner))) + rest == lead + ("<" + (inside + (">" + (inner + rest))))
  {
  }

  lemma CloseRead(ws: string, name: string, rest: string)
    requires AllSpaces(ws) && AllNameChars(name)
    ensures OpenTag(ws + ("</" + name + ">" + rest)) == NoChild
    ensures CloseTag(ws + ("</" + name + ">" + rest), name) == Some(rest)
  {
    hide SpaceCount, NameLength;
    var tag := "/" + name + (">" + rest);
    assert "</" + name + ">" + rest == "<" + tag;
    SpacesCount(ws, "<" + tag);
    assert ("<" + tag)[1..] == tag;
    NoCloseInName(name);
    FindAfter("/" + name, '>', ">" + rest);
    assert tag[1..|name| + 1] == name && tag[|name| + 2..] == rest;
  }

  lemma EndFound(n: Node, rest: string)
    requires GoodNode(n)
    ensures
      var end := n.tail + ("</" + n.name + ">") + rest;
      OpenTag(end) == NoChild && XmlParser.CloseTag(end, n.name) == Some(rest)
  {
    hide OpenTag, XmlParser.CloseTag, AllSpaces, AllNameChars, GoodAttrs, Region;
    CloseRead(n.tail, n.name, rest);
    assert n.tail + ("</" + n.name + ">") + rest == n.tail + ("</" + n.name + ">" + rest);
  }
}
