/** What XML documents mean to the reader without libxml (src/topology-xml.c): what becomes of every
    attribute and tag, told without the parser, and which documents are refused. */
module XmlMeaning {
  import opened ObjTypes
  import opened Bitmap
  import opened Collections
  import opened XmlObjects
  import opened XmlParser
  import opened XmlNodes
  import DecimalText

  // ---- Attributes ----

  /** The value of the last attribute of a name. */
  ghost function Last(props: seq<Prop>, name: string): Option<string> {
    if props == [] then None
    else if props[|props| - 1].0 == name then Some(props[|props| - 1].1)
    else Last(props[..|props| - 1], name)
  }

  /** The two attributes of older versions that stand for an info. */
  ghost function BoardInfo(p: Prop): seq<Info> {
    if p.0 == "dmi_board_vendor" then [Info("DMIBoardVendor", p.1)]
    else if p.0 == "dmi_board_name" then [Info("DMIBoardName", p.1)]
    else []
  }

  ghost function BoardInfos(props: seq<Prop>): seq<Info> {
    if props == [] then [] else BoardInfos(props[..|props| - 1]) + BoardInfo(props[|props| - 1])
  }

  ghost function OrElse<T>(found: Option<T>, other: Option<T>): Option<T> {
    if found.Some? then found else other
  }

  ghost function SetOf(props: seq<Prop>, name: string): Option<Bits> {
    var text := Last(props, name);
    if text.Some? then Some(ReadSet(text.value)) else None
  }

  ghost function TypeOf(props: seq<Prop>): Option<ObjType> {
    var text := Last(props, "type");
    if text.Some? then TypeOfString(text.value) else None
  }

  ghost function IndexOf(props: seq<Prop>): Option<nat> {
    var text := Last(props, "os_index");
    if text.Some? then Some(DecimalText.ReadNumber(text.value, 10, 0).0) else None
  }

  /** `o` with what its attributes say; those of all other names say nothing. */
  ghost function Described(o: XmlObject, props: seq<Prop>): XmlObject {
    XmlObject(OrElse(TypeOf(props), o.typ), OrElse(IndexOf(props), o.osIndex), OrElse(SetOf(props, "cpuset"), o.cpuset),
              OrElse(SetOf(props, "complete_cpuset"), o.complete), OrElse(SetOf(props, "online_cpuset"), o.online),
              OrElse(SetOf(props, "allowed_cpuset"), o.allowed), OrElse(Last(props, "name"), o.name),
              o.infos + BoardInfos(props), o.children)
  }

  ghost predicate TypesKnown(props: seq<Prop>) {
    forall k :: 0 <= k < |props| ==> props[k].0 == "type" ==> TypeOfString(props[k].1).Some?
  }

  lemma {:induction false} AttrsMean(o: XmlObject, props: seq<Prop>)
    ensures SetAttrs(o, props) == if TypesKnown(props) then Some(Described(o, props)) else None
    decreases |props|
  {
    hide SetAttr, Described, TypeOfString;
    if props == [] {
      NothingDescribed(o);
    } else {
      var front, p := props[..|props| - 1], props[|props| - 1];
      assert props == front + [p];
      AttrsMean(o, front);
      SetLast(o, front, p);
      assert TypesKnown(props) <==> TypesKnown(front) && (p.0 == "type" ==> TypeOfString(p.1).Some?);
      if TypesKnown(front) {
        AttrMeans(o, props);
      }
    }
  }

  lemma {:induction false} SetLast(o: XmlObject, props: seq<Prop>, p: Prop)
    ensures SetAttrs(o, props + [p]) == var r := SetAttrs(o, props); if r.Some? then SetAttr(r.value, p) else None
    decreases |props|
  {
    hide SetAttr;
    if props == [] {
      assert props + [p] == [p] && [p][1..] == [];
      var r := SetAttr(o, p);
      if r.Some? {
        assert SetAttrs(r.value, []) == r;
      }
    } else {
      assert (props + [p])[1..] == props[1..] + [p];
      var more := SetAttr(o, props[0]);
      if more.Some? {
        SetLast(more.value, props[1..], p);
      }
    }
  }

  lemma NothingDescribed(o: XmlObject)
    ensures Described(o, []) == o
  {
    assert o.infos + [] == o.infos;
  }

  lemma AttrMeans(o: XmlObject, props: seq<Prop>)
    requires props != []
    ensures
      var front, p := props[..|props| - 1], props[|props| - 1];
      var described := Described(o, front);
      SetAttr(described, p)
      == if p.0 == "type" && TypeOfString(p.1).None? then None else Some(Described(o, props))
  {
    hide TypeOfString, ReadSet, DecimalText.ReadNumber;
    var front, p := props[..|props| - 1], props[|props| - 1];
    assert o.infos + (BoardInfos(front) + BoardInfo(p)) == (o.infos + BoardInfos(front)) + BoardInfo(p);
    assert o.infos + BoardInfos(front) + [] == o.infos + BoardInfos(front);
  }

  /** A type is not needed before other attributes, or at all. */
  lemma {:induction false} TypeIsNotNeeded(props: seq<Prop>)
    requires forall k :: 0 <= k < |props| ==> props[k].0 != "type"
    ensures SetAttrs(BLANK, props).Some? && SetAttrs(BLANK, props).value.typ == None
  {
    AttrsMean(BLANK, props);
    NoTypeLast(props);
  }

  lemma {:induction false} NoTypeLast(props: seq<Prop>)
    requires forall k :: 0 <= k < |props| ==> props[k].0 != "type"
    ensures Last(props, "type") == None
    decreases |props|
  {
    if props != [] {
      NoTypeLast(props[..|props| - 1]);
    }
  }

  // ---- Tags ----

  ghost function Listed(n: Node): seq<Prop> {
    ReadAttrs(n.attrs)
  }

  ghost predicate InfoNames(props: seq<Prop>) {
    forall k :: 0 <= k < |props| ==> props[k].0 == "name" || props[k].0 == "value"
  }

  /** An info without a name is dropped, one without a value has an empty one. */
  ghost function InfosOf(props: seq<Prop>): seq<Info> {
    var name, value := Last(props, "name"), Last(props, "value");
    if name.None? then [] else [Info(name.value, if value.Some? then value.value else "")]
  }

  /** Inside an object there may be objects and infos with their attributes. */
  ghost predicate Accepted(n: Node)
    decreases n, 0
  {
    TypesKnown(Listed(n)) && AllAccepted(n.children)
  }

  ghost predicate AllAccepted(nodes: seq<Node>)
    decreases nodes
  {
    forall k :: 0 <= k < |nodes| ==> ChildAccepted(nodes[k])
  }

  ghost predicate ChildAccepted(n: Node)
    decreases n, 1
  {
    if n.name == "object" then Accepted(n) else n.name == "info" && InfoNames(Listed(n))
  }

  /** The object of a tag, when the tag is read into `o`. */
  ghost function ObjectOf(o: XmlObject, n: Node): XmlObject
    decreases n
  {
    WithParts(Described(o, Listed(n)), InfoTags(n.children), ObjectTags(n.children))
  }

  ghost function WithParts(o: XmlObject, infos: seq<Info>, children: seq<XmlObject>): XmlObject {
    o.(infos := o.infos + infos, children := o.children + children)
  }

  ghost function InfoTags(nodes: seq<Node>): seq<Info> {
    if nodes == [] then []
    else (if nodes[0].name == "info" then InfosOf(Listed(nodes[0])) else []) + InfoTags(nodes[1..])
  }

  ghost function ObjectTags(nodes: seq<Node>): seq<XmlObject>
    decreases nodes
  {
    if nodes == [] then []
    else (if nodes[0].name == "object" then [ObjectOf(BLANK, nodes[0])] else []) + ObjectTags(nodes[1..])
  }

  lemma {:induction false} InfoMeans(props: seq<Prop>, name: Option<string>, value: Option<string>)
    ensures InfoOf(props, name, value)
      == if InfoNames(props) then Some((OrElse(Last(props, "name"), name), OrElse(Last(props, "value"), value)))
        else None
    decreases |props|
  {
    if props != [] {
      var p, rest := props[0], props[1..];
      LastOfRest(props, "name");
      LastOfRest(props, "value");
      assert InfoNames(props) <==> (p.0 == "name" || p.0 == "value") && InfoNames(rest);
      InfoMeans(rest, if p.0 == "name" then Some(p.1) else name, if p.0 == "name" then value else Some(p.1));
    }
  }

  lemma {:induction false} LastOfRest(props: seq<Prop>, name: string)
    requires props != []
    ensures Last(props, name)
      == OrElse(Last(props[1..], name), if props[0].0 == name then Some(props[0].1) else None)
    decreases |props|
  {
    if |props| == 1 {
      assert props[1..] == [] && props[..0] == [];
    } else {
      LastOfRest(props[..|props| - 1], name);
      assert props[..|props| - 1][1..] == props[1..][..|props| - 2];
    }
  }

  /** An info tag adds its info, or is refused. */
  lemma InfoRead(o: XmlObject, n: Node, rest: string)
    requires GoodNode(n) && n.name == "info"
    ensures ParseInfo(o, Child("info", Region(n)[1..], n.closed, Inner(n) + rest))
      == if InfoNames(Listed(n)) then Done(WithParts(o, InfosOf(Listed(n)), []), rest) else Failed
  {
    hide GoodNode, AllAttrs, Region, ReadAttrs, InfoNames, InfoOf, XmlParser.CloseTag;
    SoundNode(n);
    RegionRead(n);
    InfoMeans(Listed(n), None, None);
    assert o.infos + [] == o.infos && o.children + [] == o.children;
    if n.closed {
      assert Inner(n) + rest == rest;
    } else {
      EndFound(n, rest);
      assert Inner(n) == n.tail + ("</" + n.name + ">") by { NoTexts(n); }
    }
  }

  lemma SoundNode(n: Node)
    requires GoodNode(n)
    ensures Region(n) != "" && (n.closed ==> n.children == []) && (n.name == "info" ==> n.children == [])
    ensures forall k :: 0 <= k < |n.children| ==> GoodNode(n.children[k])
  {
  }

  lemma NoTexts(n: Node)
    requires n.children == [] && !n.closed
    ensures Inner(n) == n.tail + ("</" + n.name + ">")
  {
    assert Texts([]) == "";
  }

  // ---- The reader ----

  /** An object tag is read into the object that it means, or is refused. */
  lemma {:induction false} ObjectRead(o: XmlObject, n: Node, rest: string)
    requires GoodNode(n)
    ensures ParseObject(o, Child(n.name, Region(n)[1..], n.closed, Inner(n) + rest))
      == if Accepted(n) then Done(ObjectOf(o, n), rest) else Failed
    decreases n, 1, 0
  {
    hide GoodNode, AllAttrs, Region, ReadAttrs, TypesKnown, Described, SetAttrs, ParseChildren, AllAccepted;
    SoundNode(n);
    RegionRead(n);
    AttrsMean(o, Listed(n));
    var described := Described(o, Listed(n));
    if n.closed {
      assert Inner(n) + rest == rest;
      NothingInside(described);
    } else {
      var end := n.tail + ("</" + n.name + ">") + rest;
      assert Inner(n) + rest == Texts(n.children) + end;
      EndFound(n, rest);
      ChildrenRead(described, n, n.children, end, rest);
    }
  }

  lemma NothingInside(o: XmlObject)
    ensures WithParts(o, InfoTags([]), ObjectTags([])) == o && AllAccepted([])
  {
    assert o.infos + [] == o.infos && o.children + [] == o.children;
  }

  lemma {:induction false} ChildrenRead(o: XmlObject, n: Node, nodes: seq<Node>, end: string, rest: string)
    requires forall k :: 0 <= k < |nodes| ==> GoodNode(nodes[k]) && nodes[k] < n
    requires OpenTag(end) == NoChild && XmlParser.CloseTag(end, n.name) == Some(rest)
    ensures ParseChildren(o, n.name, Texts(nodes) + end)
      == if AllAccepted(nodes) then Done(WithParts(o, InfoTags(nodes), ObjectTags(nodes)), rest) else Failed
    decreases n, 0, |nodes|
  {
    hide GoodNode, OpenTag, XmlParser.CloseTag, Text, Region, Inner, ParseObject, ParseInfo, ChildAccepted, WithParts;
    hide InfoTags, ObjectTags, Accepted, ObjectOf;
    if nodes == [] {
      assert Texts([]) + end == end;
      NothingInside(o);
    } else {
      var c, later := nodes[0], Texts(nodes[1..]) + end;
      assert Texts(nodes) + end == Text(c) + later;
      NodeFound(c, later);
      AcceptedStep(nodes);
      if c.name == "object" {
        ObjectRead(BLANK, c, later);
        var next := o.(children := o.children + [ObjectOf(BLANK, c)]);
        if Accepted(c) {
          ChildrenRead(next, n, nodes[1..], end, rest);
        }
      } else if c.name == "info" {
        InfoRead(o, c, later);
        if InfoNames(Listed(c)) {
          ChildrenRead(WithParts(o, InfosOf(Listed(c)), []), n, nodes[1..], end, rest);
        }
      }
      PartsStep(o, nodes);
    }
  }

  lemma AcceptedStep(nodes: seq<Node>)
    requires nodes != []
    ensures AllAccepted(nodes) <==> ChildAccepted(nodes[0]) && AllAccepted(nodes[1..])
    ensures ChildAccepted(nodes[0])
      <==> if nodes[0].name == "object" then Accepted(nodes[0])
        else nodes[0].name == "info" && InfoNames(Listed(nodes[0]))
  {
    hide Accepted, InfoNames;
  }

  lemma PartsStep(o: XmlObject, nodes: seq<Node>)
    requires nodes != []
    ensures
      var c := nodes[0];
      var parts := WithParts(o, InfoTags(nodes), ObjectTags(nodes));
      && (c.name == "object" ==>
            var next := o.(children := o.children + [ObjectOf(BLANK, c)]);
            parts == WithParts(next, InfoTags(nodes[1..]), ObjectTags(nodes[1..])))
      && (c.name == "info" ==>
            parts == WithParts(WithParts(o, InfosOf(Listed(c)), []), InfoTags(nodes[1..]), ObjectTags(nodes[1..])))
  {
    hide InfosOf, ObjectOf, Listed, InfoTags, ObjectTags, WithParts;
    TagsStep(nodes);
    PartsTwice(o, [], [ObjectOf(BLANK, nodes[0])], InfoTags(nodes[1..]), ObjectTags(nodes[1..]));
    PartsTwice(o, InfosOf(Listed(nodes[0])), [], InfoTags(nodes[1..]), ObjectTags(nodes[1..]));
    OneChild(o, ObjectOf(BLANK, nodes[0]));
  }

  lemma TagsStep(nodes: seq<Node>)
    requires nodes != []
    ensures InfoTags(nodes)
      == (if nodes[0].name == "info" then InfosOf(Listed(nodes[0])) else []) + InfoTags(nodes[1..])
    ensures ObjectTags(nodes)
      == (if nodes[0].name == "object" then [ObjectOf(BLANK, nodes[0])] else []) + ObjectTags(nodes[1..])
  {
    hide InfosOf, ObjectOf, Listed;
  }

  lemma PartsTwice(o: XmlObject, i: seq<Info>, c: seq<XmlObject>, infos: seq<Info>, children: seq<XmlObject>)
    ensures WithParts(WithParts(o, i, c), infos, children) == WithParts(o, i + infos, c + children)
  {
    assert (o.infos + i) + infos == o.infos + (i + infos);
    assert (o.children + c) + children == o.children + (c + children);
  }

  lemma OneChild(o: XmlObject, c: XmlObject)
    ensures WithParts(o, [], [c]) == o.(children := o.children + [c])
  {
    assert o.infos + [] == o.infos;
  }

  // ---- Documents ----

  predicate HeaderLine(line: string) {
    (StartsWith(line, XML_HEADER) || StartsWith(line, DOCTYPE)) && '\n' !in line
  }

  predicate HeaderLines(lines: seq<string>) {
    forall k :: 0 <= k < |lines| ==> HeaderLine(lines[k])
  }

  function Headers(lines: seq<string>): string {
    if lines == [] then "" else lines[0] + ("\n" + Headers(lines[1..]))
  }

  /** `end` is what follows the root tag; nobody looks at it. */
  function DocumentText(lines: seq<string>, root: Node, end: string): string {
    Headers(lines) + (TOPOLOGY + (Text(root) + end))
  }

  lemma LineSkipped(line: string, rest: string)
    requires StartsWith(line, XML_HEADER) || StartsWith(line, DOCTYPE)
    requires '\n' !in line
    ensures SkipHeaders(line + ("\n" + rest)) == SkipHeaders(rest)
  {
    hide StartsWith, Find;
    var text := line + ("\n" + rest);
    assert StartsWith(text, XML_HEADER) || StartsWith(text, DOCTYPE) by {
      StartsLonger(line, "\n" + rest);
    }
    FindAfter(line, '\n', "\n" + rest);
    assert text[|line| + 1..] == rest;
  }

  lemma StartsLonger(line: string, rest: string)
    ensures forall start :: StartsWith(line, start) ==> StartsWith(line + rest, start)
  {
    forall start | StartsWith(line, start)
      ensures StartsWith(line + rest, start)
    {
      assert (line + rest)[..|start|] == line[..|start|];
    }
  }

  lemma {:induction false} HeadersSkipped(lines: seq<string>, body: string)
    requires HeaderLines(lines) && StartsWith(body, TOPOLOGY)
    ensures SkipHeaders(Headers(lines) + body) == Some(body)
  {
    hide SkipHeaders, HeaderLine, StartsWith;
    if lines == [] {
      assert Headers(lines) + body == body;
      BodyReached(body);
    } else {
      var rest := Headers(lines[1..]) + body;
      assert Headers(lines) + body == lines[0] + ("\n" + rest);
      HeaderLineSkipped(lines[0], rest);
      HeadersSkipped(lines[1..], body);
    }
  }

  lemma HeaderLineSkipped(line: string, rest: string)
    requires HeaderLine(line)
    ensures SkipHeaders(line + ("\n" + rest)) == SkipHeaders(rest)
  {
    LineSkipped(line, rest);
  }

  lemma BodyReached(body: string)
    requires StartsWith(body, TOPOLOGY)
    ensures SkipHeaders(body) == Some(body)
  {
    assert body[1] == 't';
  }

  /** A document is read exactly when its root is an object and everything in it is accepted, and then
      gives the object that it means. */
  lemma DocumentMeans(o: XmlObject, lines: seq<string>, root: Node, end: string)
    requires HeaderLines(lines) && GoodNode(root)
    ensures ParseDocument(o, DocumentText(lines, root, end))
      == if root.name == "object" && Accepted(root) then Done(ObjectOf(o, root), end) else Failed
  {
    hide HeaderLines, GoodNode, SkipHeaders, OpenTag, ParseObject, Accepted, ObjectOf, Text, StartsWith;
    var body := TOPOLOGY + (Text(root) + end);
    assert StartsWith(body, TOPOLOGY) && body[|TOPOLOGY|..] == Text(root) + end by { TopologyFirst(Text(root) + end); }
    HeadersSkipped(lines, body);
    NodeFound(root, end);
    ObjectRead(o, root, end);
  }

  lemma TopologyFirst(rest: string)
    ensures StartsWith(TOPOLOGY + rest, TOPOLOGY) && (TOPOLOGY + rest)[|TOPOLOGY|..] == rest
  {
  }

  // ---- Other attributes ----

  const READ_NAMES := ["type", "os_index", "cpuset", "complete_cpuset", "online_cpuset", "allowed_cpuset", "name",
                       "dmi_board_vendor", "dmi_board_name"]

  function Known(props: seq<Prop>): seq<Prop> {
    if props == [] then []
    else Known(props[..|props| - 1]) + if props[|props| - 1].0 in READ_NAMES then [props[|props| - 1]] else []
  }

  /** The same tags inside one another, with the same attributes in order but for those of other names:
      these may be anywhere. Blanks and ways of closing a tag may differ, too. */
  ghost predicate SameButOthers(a: Node, b: Node)
    decreases a
  {
    && a.name == b.name
    && (if a.name == "object" then
          Known(Listed(a)) == Known(Listed(b)) && |a.children| == |b.children|
          && forall k :: 0 <= k < |a.children| ==> SameButOthers(a.children[k], b.children[k])
        else Listed(a) == Listed(b))
  }

  lemma {:induction false} KnownKeeps(props: seq<Prop>)
    ensures forall name :: name in READ_NAMES ==> Last(Known(props), name) == Last(props, name)
    ensures BoardInfos(Known(props)) == BoardInfos(props)
    ensures TypesKnown(Known(props)) == TypesKnown(props)
    decreases |props|
  {
    hide TypeOfString;
    if props != [] {
      var front, p := props[..|props| - 1], props[|props| - 1];
      KnownKeeps(front);
      assert props == front + [p];
      if p.0 in READ_NAMES {
        assert Known(props)[..|Known(front)|] == Known(front);
      } else {
        NotRead(p);
        assert Known(props) == Known(front);
        assert BoardInfos(front) + [] == BoardInfos(front);
      }
    }
  }

  lemma NotRead(p: Prop)
    requires p.0 !in READ_NAMES
    ensures p.0 != "type" && BoardInfo(p) == []
  {
    assert READ_NAMES[0] == "type" && READ_NAMES[7] == "dmi_board_vendor" && READ_NAMES[8] == "dmi_board_name";
  }

  lemma AttrsAgree(o: XmlObject, p: seq<Prop>, q: seq<Prop>)
    requires Known(p) == Known(q)
    ensures TypesKnown(p) == TypesKnown(q) && Described(o, p) == Described(o, q)
  {
    hide Known, Last, BoardInfos, TypesKnown, TypeOfString, ReadSet, DecimalText.ReadNumber;
    KnownKeeps(p);
    KnownKeeps(q);
    var names := READ_NAMES;
    assert names[0] == "type" && names[1] == "os_index" && names[2] == "cpuset" && names[3] == "complete_cpuset";
    assert names[4] == "online_cpuset" && names[5] == "allowed_cpuset" && names[6] == "name";
  }

  lemma {:induction false} SameMeaning(o: XmlObject, a: Node, b: Node)
    requires SameButOthers(a, b) && a.name == "object"
    ensures Accepted(a) == Accepted(b) && ObjectOf(o, a) == ObjectOf(o, b)
    decreases a, 1, 0
  {
    hide Known, Described, TypesKnown, AllAccepted, WithParts;
    AttrsAgree(o, Listed(a), Listed(b));
    SameInside(a, a.children, b.children);
  }

  lemma {:induction false} SameInside(n: Node, a: seq<Node>, b: seq<Node>)
    requires |a| == |b| && forall k :: 0 <= k < |a| ==> SameButOthers(a[k], b[k]) && a[k] < n
    ensures AllAccepted(a) == AllAccepted(b) && InfoTags(a) == InfoTags(b) && ObjectTags(a) == ObjectTags(b)
    decreases n, 0, |a|
  {
    hide Known, Accepted, ObjectOf, InfosOf, AllAccepted, Listed;
    if a != [] {
      AcceptedStep(a);
      AcceptedStep(b);
      assert SameButOthers(a[0], b[0]);
      if a[0].name == "object" {
        SameMeaning(BLANK, a[0], b[0]);
      }
      SameInside(n, a[1..], b[1..]);
    } else {
      assert a == b;
    }
  }

  /** One more attribute of another name, anywhere in a tag, changes nothing that is looked at. */
  lemma {:induction false} OtherAdded(before: seq<Attribute>, other: Attribute, after: seq<Attribute>)
    requires IsRead(other) && other.name !in READ_NAMES
    ensures Known(ReadAttrs(before + [other] + after)) == Known(ReadAttrs(before + after))
    decreases |before|
  {
    hide IsRead;
    if before == [] {
      assert [] + [other] + after == [other] + after && [] + after == after;
      assert ([other] + after)[1..] == after;
      KnownAfter((other.name, other.raw), ReadAttrs(after));
    } else {
      var a := before[0];
      assert (before + [other] + after)[1..] == before[1..] + [other] + after;
      assert (before + after)[1..] == before[1..] + after;
      if IsRead(a) {
        OtherAdded(before[1..], other, after);
        KnownAfter((a.name, a.raw), ReadAttrs(before[1..] + [other] + after));
        KnownAfter((a.name, a.raw), ReadAttrs(before[1..] + after));
      }
    }
  }

  lemma {:induction false} KnownAfter(p: Prop, props: seq<Prop>)
    ensures Known([p] + props) == (if p.0 in READ_NAMES then [p] else []) + Known(props)
    decreases |props|
  {
    var all := [p] + props;
    if props == [] {
      assert all[..0] == [] && all == [p];
    } else {
      var n := |props| - 1;
      assert all[..|all| - 1] == [p] + props[..n];
      KnownAfter(p, props[..n]);
    }
  }

  predicate SameOutcome(a: Parsed, b: Parsed) {
    (a.Failed? && b.Failed?) || (a.Done? && b.Done? && a.o == b.o)
  }

  /** Two documents that differ in such attributes, in blanks and in headers are read as the same. */
  lemma OthersIgnored(o: XmlObject, lines1: seq<string>, a: Node, end1: string,
      lines2: seq<string>, b: Node, end2: string)
    requires HeaderLines(lines1) && HeaderLines(lines2) && GoodNode(a) && GoodNode(b) && SameButOthers(a, b)
    ensures
      SameOutcome(ParseDocument(o, DocumentText(lines1, a, end1)), ParseDocument(o, DocumentText(lines2, b, end2)))
  {
    hide HeaderLines, GoodNode, ParseDocument, DocumentText, Accepted, ObjectOf;
    DocumentMeans(o, lines1, a, end1);
    DocumentMeans(o, lines2, b, end2);
    if a.name == "object" {
      SameMeaning(o, a, b);
    } else {
      assert b.name != "object";
    }
  }

  /** The size that hwloc writes of a cache is such an attribute. */
  lemma CacheSizeIsOther(before: seq<Attribute>, size: Attribute, after: seq<Attribute>)
    requires size.name == "cache_size" && '&' !in size.raw
    ensures Known(ReadAttrs(before + [size] + after)) == Known(ReadAttrs(before + after))
  {
    hide Known, ReadAttrs;
    assert size.name !in READ_NAMES;
    OtherAdded(before, size, after);
  }

  /** An attribute of older files, whose name has a capital letter, ends the reading of its tag. */
  lemma OldNameEndsTag(before: seq<Attribute>, older: Attribute, after: seq<Attribute>)
    requires GoodAttrs(before + [older] + after) && older.name == "memory_kB"
    ensures AllAttrs(AttrsText(before + [older] + after)) == AllAttrs(AttrsText(before))
  {
    hide ReadAttrs, GoodAttr, AllAttrs, AttrsText;
    var attrs := before + [older] + after;
    assert !IsNameChar(older.name[8]);
    assert before == attrs[..|before|];
    AttrsRead(attrs, "");
    AttrsRead(before, "");
    assert AttrsText(attrs) + "" == AttrsText(attrs) && AttrsText(before) + "" == AttrsText(before);
    UnreadEndsTag(before, older, after);
  }

  lemma {:induction false} UnreadEndsTag(before: seq<Attribute>, a: Attribute, after: seq<Attribute>)
    requires !IsRead(a)
    ensures ReadAttrs(before + [a] + after) == ReadAttrs(before)
    decreases |before|
  {
    hide IsRead;
    if before == [] {
      assert ([] + [a] + after)[0] == a;
    } else {
      assert (before + [a] + after)[1..] == before[1..] + [a] + after;
      UnreadEndsTag(before[1..], a, after);
    }
  }
}
