/** The XML reader undoes the XML writer (src/topology-xml.c, without libxml) exactly for the trees
    whose strings need no escaping: an escaped string is lost. */
module XmlRoundTrip {
  import opened ObjTypes
  import opened Bitmap
  import opened Collections
  import opened XmlObjects
  import opened XmlParser
  import opened TextBuffer
  import opened XmlNodes
  import opened XmlMeaning
  import BitmapText
  import DecimalText
  import HexText

  // ---- Attributes ----

  predicate GoodProp(p: Prop) {
    p.0 != "" && AllNameChars(p.0) && NUL !in p.1
  }

  predicate GoodProps(props: seq<Prop>) {
    forall k :: 0 <= k < |props| ==> GoodProp(props[k])
  }

  lemma {:induction false} SpecialIsEscaped(value: string)
    requires NUL !in value && !Plain(value)
    ensures '&' in Escape(value)
  {
    if value[0] in SPECIAL {
      assert EscapeChar(value[0])[0] == '&';
      assert Escape(value)[0] == '&';
    } else {
      assert !Plain(value[1..]) && NUL !in value[1..] by {
        var k :| 0 <= k < |value| && (value[k] in SPECIAL || value[k] == NUL);
        assert value[1..][k - 1] == value[k];
      }
      SpecialIsEscaped(value[1..]);
      assert Escape(value) == EscapeChar(value[0]) + Escape(value[1..]);
    }
  }

  /** An escaped value cannot be read, and neither can what follows it in the tag. */
  lemma EscapedIsUnread(value: string)
    requires NUL !in value
    ensures '&' in Escape(value) <==> !Plain(value)
  {
    hide Escape, Plain;
    if Plain(value) {
      PlainEscape(value);
      PlainValue(value);
    } else {
      SpecialIsEscaped(value);
    }
  }

  lemma PlainValue(text: string)
    requires Plain(text)
    ensures '\"' !in text && '&' !in text && '>' !in text && '<' !in text
  {
  }

  /** The attributes before the first one whose value was escaped. */
  function Readable(props: seq<Prop>): seq<Prop> {
    if props == [] || !Plain(props[0].1) then [] else [props[0]] + Readable(props[1..])
  }

  // ---- Values ----

  lemma DigitIsPlain(c: char)
    requires HexText.DigitValue(c) >= 0 || c in ",x."
    ensures c !in SPECIAL && c != NUL
  {
  }

  lemma AllDigitsPlain(text: string)
    requires forall k :: 0 <= k < |text| ==> HexText.DigitValue(text[k]) >= 0 || text[k] in ",x."
    ensures Plain(text)
  {
    hide HexText.DigitValue;
    forall k | 0 <= k < |text|
      ensures text[k] !in SPECIAL && text[k] != NUL
    {
      DigitIsPlain(text[k]);
    }
  }

  lemma PlainAppend(a: string, b: string)
    requires Plain(a) && Plain(b)
    ensures Plain(a + b)
  {
  }

  lemma {:induction false} ItemsPlain(b: Bits, g: nat)
    requires 0 < g <= 2 * |b.words|
    ensures Plain(BitmapText.Items(b, g))
  {
    hide BitmapText.Group, BitmapText.AnyBit, HexText.HexDigits, HexText.DigitValue, Plain;
    ItemPlain(b, g - 1);
    if g > 1 {
      ItemsPlain(b, g - 1);
      CommaPlain();
      PlainAppend(",", BitmapText.Items(b, g - 1));
      PlainAppend(BitmapText.Item(b, g - 1), "," + BitmapText.Items(b, g - 1));
    } else {
      assert BitmapText.Items(b, 1) == BitmapText.Item(b, 0) + "";
      assert BitmapText.Item(b, 0) + "" == BitmapText.Item(b, 0);
    }
  }

  lemma CommaPlain()
    ensures Plain(",") && Plain("0x") && Plain("0x0") && Plain("") && Plain(HexText.INFINITE)
  {
  }

  lemma ItemPlain(b: Bits, g: nat)
    requires g < 2 * |b.words|
    ensures Plain(BitmapText.Item(b, g))
  {
    hide HexText.HexDigits, HexText.DigitValue, Plain;
    CommaPlain();
    var bits := BitmapText.Group(b, g);
    HexText.DigitsHaveNoComma(bits);
    AllDigitsPlain(HexText.HexDigits(bits));
    PlainAppend("0x", HexText.HexDigits(bits));
  }

  lemma SetTextPlain(b: Bits)
    requires |b.words| >= 1
    ensures Plain(BitmapText.Text(b))
  {
    hide Plain, BitmapText.Items;
    CommaPlain();
    ItemsPlain(b, BitmapText.Top(b, 2 * |b.words|));
    ItemsPlain(b, 2 * |b.words|);
    PlainAppend(HexText.INFINITE, ",");
    PlainAppend(HexText.INFINITE + ",", BitmapText.Items(b, 2 * |b.words|));
  }

  lemma {:induction false} DecimalPlain(n: nat)
    ensures Plain(DecimalText.Decimal(n))
  {
    hide Plain;
    DecimalText.DecimalDigit(n % 10);
    AllDigitsPlain(DecimalText.DigitOf(n));
    CommaPlain();
    if n >= 10 {
      DecimalPlain(n / 10);
      PlainAppend(DecimalText.Decimal(n / 10), DecimalText.DigitOf(n));
    } else {
      PlainAppend("", DecimalText.DigitOf(n));
    }
  }

  lemma DecimalReadBack(n: nat)
    ensures DecimalText.ReadNumber(DecimalText.Decimal(n), 10, 0).0 == n
  {
    DecimalText.ReadDecimal(n, "");
    DecimalText.ReadStops("", n);
    assert DecimalText.Decimal(n) + "" == DecimalText.Decimal(n);
  }

  // ---- The object that is read ----

  /** The words that come back for a set. */
  ghost function Reread(b: Option<Bits>): Option<Bits>
    requires GoodSet(b)
  {
    if b.Some? then Some(ReadSet(BitmapText.Text(b.value))) else None
  }

  /** An object as it comes back. */
  ghost function Canon(o: XmlObject): XmlObject
    requires Printable(o)
    decreases o
  {
    XmlObject(o.typ, o.osIndex, Reread(o.cpuset), Reread(o.complete), Reread(o.online), Reread(o.allowed),
              ReadBack(o.name), InfosBack(o.infos), CanonAll(o.children))
  }

  /** A string comes back unless it was escaped. */
  function ReadBack(text: Option<string>): Option<string> {
    if text.Some? && Plain(text.value) then text else None
  }

  /** An info is lost with its name; without its value it comes back with an empty one. */
  function InfoBack(i: Info): seq<Info> {
    if Plain(i.name) then [Info(i.name, if Plain(i.value) then i.value else "")] else []
  }

  function InfosBack(infos: seq<Info>): seq<Info> {
    if infos == [] then [] else InfoBack(infos[0]) + InfosBack(infos[1..])
  }

  ghost function CanonAll(children: seq<XmlObject>): (r: seq<XmlObject>)
    requires forall k :: 0 <= k < |children| ==> Printable(children[k])
    ensures |r| == |children|
    decreases children
  {
    if children == [] then [] else [Canon(children[0])] + CanonAll(children[1..])
  }

  predicate GoodSet(b: Option<Bits>) {
    b.Some? ==> |b.value.words| >= 1
  }

  /** Types, real bitmaps, and strings as they are in C. */
  predicate Printable(o: XmlObject)
    decreases o
  {
    && o.typ.Some? && GoodSet(o.cpuset) && GoodSet(o.complete) && GoodSet(o.online) && GoodSet(o.allowed)
    && (o.name.Some? ==> NUL !in o.name.value)
    && (forall k :: 0 <= k < |o.infos| ==> NUL !in o.infos[k].name && NUL !in o.infos[k].value)
    && (forall k :: 0 <= k < |o.children| ==> Printable(o.children[k]))
  }

  /** No string of the tree needs escaping. */
  predicate PlainTree(o: XmlObject)
    decreases o
  {
    && (o.name.Some? ==> Plain(o.name.value))
    && (forall k :: 0 <= k < |o.infos| ==> PlainInfo(o.infos[k]))
    && (forall k :: 0 <= k < |o.children| ==> PlainTree(o.children[k]))
  }

  /** The same object, whatever the number of words of its sets. */
  ghost predicate SameTree(a: XmlObject, b: XmlObject)
    decreases a
  {
    && a.typ == b.typ && a.osIndex == b.osIndex && a.name == b.name && a.infos == b.infos
    && SetsEqual(a.cpuset, b.cpuset) && SetsEqual(a.complete, b.complete)
    && SetsEqual(a.online, b.online) && SetsEqual(a.allowed, b.allowed)
    && |a.children| == |b.children| && forall k :: 0 <= k < |a.children| ==> SameTree(a.children[k], b.children[k])
  }

  ghost predicate SetsEqual(a: Option<Bits>, b: Option<Bits>) {
    a.Some? == b.Some? && (a.Some? ==> Set(a.value) == Set(b.value))
  }

  lemma RereadEqual(b: Option<Bits>)
    requires GoodSet(b)
    ensures SetsEqual(b, Reread(b))
  {
    hide BitmapText.Text, BitmapText.Parse, Set;
    if b.Some? {
      BitmapText.RoundTrip(b.value);
    }
  }

  predicate PlainInfo(i: Info) {
    Plain(i.name) && Plain(i.value)
  }

  lemma InfoBackSame(i: Info)
    ensures |InfoBack(i)| <= 1 && (InfoBack(i) == [i] <==> PlainInfo(i))
  {
    hide Plain;
    NothingIsPlain();
  }

  lemma {:induction false} InfosBackShort(infos: seq<Info>)
    ensures |InfosBack(infos)| <= |infos|
  {
    hide InfoBack;
    if infos != [] {
      InfosBackShort(infos[1..]);
      InfoBackSame(infos[0]);
    }
  }

  lemma {:induction false} InfosBackSame(infos: seq<Info>)
    ensures InfosBack(infos) == infos <==> forall k :: 0 <= k < |infos| ==> PlainInfo(infos[k])
  {
    hide PlainInfo, InfoBack;
    if infos != [] {
      InfosBackSame(infos[1..]);
      InfosBackShort(infos[1..]);
      InfoBackSame(infos[0]);
      SameParts(InfoBack(infos[0]), InfosBack(infos[1..]), infos);
      assert infos == [infos[0]] + infos[1..];
    }
  }

  lemma SameParts(first: seq<Info>, later: seq<Info>, infos: seq<Info>)
    requires infos != [] && |later| < |infos| && |first| <= 1
    ensures first + later == infos <==> first == [infos[0]] && later == infos[1..]
  {
    if first + later == infos {
      assert first == (first + later)[..|first|] && later == (first + later)[|first|..];
    }
    assert infos == [infos[0]] + infos[1..];
  }

  lemma NothingIsPlain()
    ensures Plain("")
  {
  }

  /** The same tree comes back exactly when nothing was escaped. */
  lemma {:induction false} CanonIsSame(o: XmlObject)
    requires Printable(o)
    ensures SameTree(o, Canon(o)) <==> PlainTree(o)
    decreases o
  {
    hide SetsEqual, Reread, Plain, PlainInfo, InfosBack;
    RereadEqual(o.cpuset);
    RereadEqual(o.complete);
    RereadEqual(o.online);
    RereadEqual(o.allowed);
    InfosBackSame(o.infos);
    forall k | 0 <= k < |o.children|
      ensures SameTree(o.children[k], CanonAll(o.children)[k]) <==> PlainTree(o.children[k])
    {
      CanonAt(o.children, k);
      CanonIsSame(o.children[k]);
    }
  }

  lemma {:induction false} CanonAt(children: seq<XmlObject>, k: nat)
    requires k < |children| && forall j :: 0 <= j < |children| ==> Printable(children[j])
    ensures CanonAll(children)[k] == Canon(children[k])
  {
    if k > 0 {
      CanonAt(children[1..], k - 1);
    }
  }

  // ---- Attributes of an object ----

  lemma {:induction false} SetAttrsAppend(o: XmlObject, p: seq<Prop>, q: seq<Prop>)
    ensures SetAttrs(o, p + q) == var r := SetAttrs(o, p); if r.Some? then SetAttrs(r.value, q) else None
    decreases |p|
  {
    hide SetAttr;
    if p == [] {
      assert p + q == q;
    } else {
      var more := SetAttr(o, p[0]);
      assert (p + q)[1..] == p[1..] + q;
      if more.Some? {
        SetAttrsAppend(more.value, p[1..], q);
      }
    }
  }

  lemma SetOne(o: XmlObject, p: Prop)
    ensures SetAttrs(o, [p]) == SetAttr(o, p) && SetAttrs(o, []) == Some(o)
  {
    hide SetAttr;
    assert [p][1..] == [];
    var r := SetAttr(o, p);
    if r.Some? {
      assert SetAttrs(r.value, []) == Some(r.value);
    }
  }

  /** The four sets, as attributes. */
  ghost function SetProps(o: XmlObject): seq<Prop> {
    SetProp("cpuset", o.cpuset) + SetProp("complete_cpuset", o.complete)
    + SetProp("online_cpuset", o.online) + SetProp("allowed_cpuset", o.allowed)
  }

  lemma ReadSetProp(o: XmlObject, name: string, b: Option<Bits>)
    requires GoodSet(b) && name in {"cpuset", "complete_cpuset", "online_cpuset", "allowed_cpuset"}
    ensures SetAttrs(o, SetProp(name, b)) ==
      if b.None? then Some(o)
      else if name == "cpuset" then Some(o.(cpuset := Reread(b)))
      else if name == "complete_cpuset" then Some(o.(complete := Reread(b)))
      else if name == "online_cpuset" then Some(o.(online := Reread(b)))
      else Some(o.(allowed := Reread(b)))
  {
    hide ReadSet, SetAttrs, BitmapText.Text;
    if b.Some? {
      SetOne(o, (name, BitmapText.Text(b.value)));
    } else {
      SetOne(o, (name, ""));
    }
  }

  ghost function WithSets(blank: XmlObject, o: XmlObject): XmlObject
    requires GoodSet(o.cpuset) && GoodSet(o.complete) && GoodSet(o.online) && GoodSet(o.allowed)
  {
    XmlObject(blank.typ, blank.osIndex, Reread(o.cpuset), Reread(o.complete), Reread(o.online), Reread(o.allowed),
              blank.name, blank.infos, blank.children)
  }

  lemma ReadSetProps(o: XmlObject, blank: XmlObject)
    requires GoodSet(o.cpuset) && GoodSet(o.complete) && GoodSet(o.online) && GoodSet(o.allowed)
    requires blank.cpuset == blank.complete == blank.online == blank.allowed == None
    ensures SetAttrs(blank, SetProps(o)) == Some(WithSets(blank, o))
  {
    hide SetProp, SetAttrs, Reread, GoodSet;
    RereadNothing();
    var o1 := blank.(cpuset := Reread(o.cpuset));
    var o2 := o1.(complete := Reread(o.complete));
    var o3 := o2.(online := Reread(o.online));
    var p1, p2, p3, p4 := SetProp("cpuset", o.cpuset), SetProp("complete_cpuset", o.complete),
                          SetProp("online_cpuset", o.online), SetProp("allowed_cpuset", o.allowed);
    ReadSetProp(blank, "cpuset", o.cpuset);
    ReadSetProp(o1, "complete_cpuset", o.complete);
    ReadSetProp(o2, "online_cpuset", o.online);
    ReadSetProp(o3, "allowed_cpuset", o.allowed);
    SetAttrsAppend(blank, p1, p2);
    SetAttrsAppend(blank, p1 + p2, p3);
    SetAttrsAppend(blank, p1 + p2 + p3, p4);
  }

  lemma RereadNothing()
    ensures GoodSet(None) && Reread(None) == None
  {
  }

  /** What the attributes give: all but the infos and the children. */
  lemma ReadProps(o: XmlObject)
    requires Printable(o)
    ensures SetAttrs(BLANK, Readable(Props(o))) == Some(Canon(o).(infos := [], children := []))
  {
    hide SetProp, SetAttrs, Reread, GoodSet, DecimalText.Decimal, DecimalText.ReadNumber, Readable, Plain;
    var p1 := [("type", TypeString(o.typ.value))];
    var p2 := if o.osIndex.Some? then [("os_index", DecimalText.Decimal(o.osIndex.value))] else [];
    var p3 := SetProps(o);
    var p4 := if ReadBack(o.name).Some? then [("name", o.name.value)] else [];
    ReadableProps(o);
    assert Readable(Props(o)) == p1 + p2 + p3 + p4;
    var o1 := BLANK.(typ := o.typ);
    var o2 := o1.(osIndex := o.osIndex);
    var o3 := WithSets(o2, o);
    ReadType(o);
    ReadIndex(o1, o.osIndex);
    ReadSetProps(o, o2);
    ReadName(o3, ReadBack(o.name));
    SetAttrsAppend(BLANK, p1, p2);
    SetAttrsAppend(BLANK, p1 + p2, p3);
    SetAttrsAppend(BLANK, p1 + p2 + p3, p4);
  }

  /** All attributes but the name. */
  ghost function FirstProps(o: XmlObject): seq<Prop>
    requires o.typ.Some?
  {
    [("type", TypeString(o.typ.value))]
    + (if o.osIndex.Some? then [("os_index", DecimalText.Decimal(o.osIndex.value))] else []) + SetProps(o)
  }

  lemma ReadableProps(o: XmlObject)
    requires Printable(o)
    ensures Readable(Props(o)) == FirstProps(o) + if ReadBack(o.name).Some? then [("name", o.name.value)] else []
  {
    hide SetProp, Plain, DecimalText.Decimal, TypeString, Readable;
    var name := if o.name.Some? then [("name", o.name.value)] else [];
    assert Props(o) == FirstProps(o) + name;
    FirstPropsPlain(o);
    ReadableAppend(FirstProps(o), name);
    if o.name.Some? {
      ReadableOne(name[0]);
    } else {
      ReadableOne(("", ""));
    }
  }

  lemma ReadableOne(p: Prop)
    ensures Readable([p]) == (if Plain(p.1) then [p] else []) && Readable([]) == []
  {
    hide Plain;
    assert [p][1..] == [];
  }

  predicate PlainProps(props: seq<Prop>) {
    forall k :: 0 <= k < |props| ==> Plain(props[k].1)
  }

  lemma {:induction false} ReadableAppend(p: seq<Prop>, q: seq<Prop>)
    requires PlainProps(p)
    ensures Readable(p + q) == p + Readable(q)
    decreases |p|
  {
    hide Plain;
    if p == [] {
      assert p + q == q;
    } else {
      assert Plain(p[0].1) && (p + q)[1..] == p[1..] + q;
      ReadableAppend(p[1..], q);
      assert p + Readable(q) == [p[0]] + (p[1..] + Readable(q));
    }
  }

  lemma ReadType(o: XmlObject)
    requires o.typ.Some?
    ensures SetAttrs(BLANK, [("type", TypeString(o.typ.value))]) == Some(BLANK.(typ := o.typ))
  {
    hide TypeString, TypeOfString, SetAttrs;
    TypeRoundTrip(o.typ.value);
    SetOne(BLANK, ("type", TypeString(o.typ.value)));
  }

  lemma ReadIndex(o: XmlObject, index: Option<nat>)
    requires o.osIndex == None
    ensures SetAttrs(o, if index.Some? then [("os_index", DecimalText.Decimal(index.value))] else []) ==
        Some(o.(osIndex := index))
  {
    hide SetAttrs, DecimalText.Decimal, DecimalText.ReadNumber;
    if index.Some? {
      DecimalReadBack(index.value);
      SetOne(o, ("os_index", DecimalText.Decimal(index.value)));
    } else {
      SetOne(o, ("", ""));
    }
  }

  lemma ReadName(o: XmlObject, name: Option<string>)
    requires o.name == None
    ensures SetAttrs(o, if name.Some? then [("name", name.value)] else []) == Some(o.(name := name))
  {
    hide SetAttrs;
    SetOne(o, ("name", if name.Some? then name.value else ""));
  }

  lemma PropsAreGood(o: XmlObject)
    requires Printable(o)
    ensures GoodProps(Props(o)) && Props(o) != []
  {
    hide Plain, SetProp, DecimalText.Decimal, TypeString;
    FirstPropsPlain(o);
    var name := if o.name.Some? then [("name", o.name.value)] else [];
    assert Props(o) == FirstProps(o) + name;
  }

  lemma FirstPropsPlain(o: XmlObject)
    requires o.typ.Some? && GoodSet(o.cpuset) && GoodSet(o.complete) && GoodSet(o.online) && GoodSet(o.allowed)
    ensures PlainProps(FirstProps(o)) && GoodProps(FirstProps(o))
  {
    hide Plain, SetProp, DecimalText.Decimal, TypeString;
    TypesPlain(o.typ.value);
    PlainIsGood(("type", TypeString(o.typ.value)));
    if o.osIndex.Some? {
      DecimalPlain(o.osIndex.value);
      PlainIsGood(("os_index", DecimalText.Decimal(o.osIndex.value)));
    }
    PlainSetProp("cpuset", o.cpuset);
    PlainSetProp("complete_cpuset", o.complete);
    PlainSetProp("online_cpuset", o.online);
    PlainSetProp("allowed_cpuset", o.allowed);
  }

  lemma PlainIsGood(p: Prop)
    requires Plain(p.1) && p.0 != "" && AllNameChars(p.0)
    ensures GoodProp(p)
  {
  }

  lemma PlainSetProp(name: string, b: Option<Bits>)
    requires GoodSet(b)
    ensures PlainProps(SetProp(name, b))
    ensures name != "" && AllNameChars(name) ==> GoodProps(SetProp(name, b))
  {
    hide Plain, BitmapText.Text;
    if b.Some? {
      SetTextPlain(b.value);
      if name != "" && AllNameChars(name) {
        PlainIsGood((name, BitmapText.Text(b.value)));
      }
    }
  }

  lemma TypesPlain(t: ObjType)
    ensures Plain(TypeString(t))
  {
  }

  // ---- The writer's text as tags ----

  function AttrOf(p: Prop): Attribute {
    Attribute(" ", p.0, Escape(p.1))
  }

  function AttrsOf(props: seq<Prop>): seq<Attribute> {
    if props == [] then [] else [AttrOf(props[0])] + AttrsOf(props[1..])
  }

  function NewLine(indent: nat): string {
    "\n" + Spaces(indent)
  }

  function InfoNode(i: Info, indent: nat): Node {
    Node(NewLine(indent), "info", AttrsOf(InfoProps(i)), "", true, [], "")
  }

  function InfoNodes(infos: seq<Info>, indent: nat): seq<Node> {
    if infos == [] then [] else [InfoNode(infos[0], indent)] + InfoNodes(infos[1..], indent)
  }

  function NodeOf(o: XmlObject, indent: nat): Node
    decreases o, 1
  {
    Node(NewLine(indent), "object", AttrsOf(Props(o)), "", IsClosed(o),
         InfoNodes(o.infos, indent + 2) + NodesOf(o.children, indent + 2), NewLine(indent))
  }

  function NodesOf(children: seq<XmlObject>, indent: nat): seq<Node>
    decreases children
  {
    if children == [] then [] else [NodeOf(children[0], indent)] + NodesOf(children[1..], indent)
  }

  predicate IsClosed(o: XmlObject) {
    o.infos == [] && o.children == []
  }

  lemma {:induction false} AttrsOfText(props: seq<Prop>)
    ensures AttrsText(AttrsOf(props)) == PropsText(props)
    decreases |props|
  {
    hide Escape;
    if props != [] {
      var p := props[0];
      AttrsOfText(props[1..]);
      assert AttrsOf(props)[1..] == AttrsOf(props[1..]);
      assert AttrText(AttrOf(p)) == PropText(p);
    }
  }

  lemma InfoNodeText(i: Info, indent: nat)
    ensures Text(InfoNode(i, indent)) + "\n" == "\n" + InfoLine(i, indent)
  {
    hide AttrsText, PropsText, Spaces, AttrsOf;
    var n := InfoNode(i, indent);
    AttrsOfText(InfoProps(i));
    var props := PropsText(InfoProps(i));
    assert Region(n) == props;
    assert Inner(n) == "";
    assert Text(n) + "\n" == "\n" + (Spaces(indent) + "<info" + props + "/>\n");
  }

  lemma {:induction false} InfoNodesText(infos: seq<Info>, indent: nat)
    ensures Texts(InfoNodes(infos, indent)) + "\n" == "\n" + InfoLines(infos, indent)
    decreases |infos|
  {
    hide Text, InfoNode, InfoLine;
    if infos != [] {
      var nodes := InfoNodes(infos, indent);
      InfoNodeText(infos[0], indent);
      InfoNodesText(infos[1..], indent);
      assert nodes[1..] == InfoNodes(infos[1..], indent);
      NextOnLine(Text(nodes[0]), Texts(nodes[1..]), InfoLine(infos[0], indent), InfoLines(infos[1..], indent));
    }
  }

  lemma NextOnLine(first: string, later: string, line: string, lines: string)
    requires first + "\n" == "\n" + line && later + "\n" == "\n" + lines
    ensures (first + later) + "\n" == "\n" + (line + lines)
  {
    assert (first + later) + "\n" == first + (later + "\n") == (first + "\n") + lines;
  }

  lemma {:induction false} TextsAppend(a: seq<Node>, b: seq<Node>)
    ensures Texts(a + b) == Texts(a) + Texts(b)
    decreases |a|
  {
    hide Text;
    if a == [] {
      assert a + b == b;
    } else {
      TextsAppend(a[1..], b);
      assert (a + b)[1..] == a[1..] + b;
    }
  }

  lemma {:induction false} NodeText(o: XmlObject, indent: nat)
    ensures Text(NodeOf(o, indent)) == NewLine(indent) + Element(o, indent)
    decreases o, 1
  {
    hide AttrsOf, AttrsText, Props, PropsText, Spaces, InfoNodes, NodesOf, InfoLines, Lines, Texts, Text, IsClosed;
    var n := NodeOf(o, indent);
    AttrsOfText(Props(o));
    ObjectText(n, indent, PropsText(Props(o)));
    if !IsClosed(o) {
      var infos, children := InfoNodes(o.infos, indent + 2), NodesOf(o.children, indent + 2);
      InfoNodesText(o.infos, indent + 2);
      NodesText(o.children, indent + 2);
      TextsAppend(infos, children);
      NextOnLine(Texts(infos), Texts(children), InfoLines(o.infos, indent + 2), Lines(o.children, indent + 2));
      ClosedLater(PropsText(Props(o)), Texts(n.children),
                  InfoLines(o.infos, indent + 2) + Lines(o.children, indent + 2), Spaces(indent));
    }
    ElementParts(o, indent);
  }

  lemma ElementParts(o: XmlObject, indent: nat)
    ensures
      var props := PropsText(Props(o));
      var lines := InfoLines(o.infos, indent + 2) + Lines(o.children, indent + 2);
      var end := if IsClosed(o) then "/>" else ">\n" + lines + Spaces(indent) + "</object>";
      Element(o, indent) == "<object" + props + end
  {
    hide Props, PropsText, Spaces, InfoLines, Lines;
    var infos, lines := InfoLines(o.infos, indent + 2), Lines(o.children, indent + 2);
    assert ">\n" + infos + lines == ">\n" + (infos + lines);
  }

  lemma ObjectText(n: Node, indent: nat, props: string)
    requires n.name == "object" && n.lead == n.tail == NewLine(indent) && AttrsText(n.attrs) == props && n.after == ""
    ensures n.closed ==> Text(n) == NewLine(indent) + ("<object" + props + "/>")
    ensures !n.closed ==>
        Text(n) == NewLine(indent)
          + ("<" + ("object" + props + "" + (">" + (Texts(n.children) + (NewLine(indent) + ("</" + "object" + ">"))))))
  {
    hide NewLine, AttrsText, Texts;
    assert Region(n) == props;
    if n.closed {
      assert "<" + ("object" + props + "/" + (">" + "")) == "<object" + props + "/>";
    }
  }

  lemma ClosedLater(props: string, inside: string, lines: string, indent: string)
    requires inside + "\n" == "\n" + lines
    ensures "<" + ("object" + props + "" + (">" + (inside + (("\n" + indent) + ("</" + "object" + ">")))))
      == "<object" + props + (">\n" + lines + indent + "</object>")
  {
    var end := indent + "</object>";
    assert inside + (("\n" + indent) + "</object>") == (inside + "\n") + end;
    assert "\n" + lines + indent + "</object>" == ("\n" + lines) + end;
    assert ">\n" + lines + indent + "</object>" == ">" + ("\n" + lines + end);
  }

  lemma {:induction false} NodesText(children: seq<XmlObject>, indent: nat)
    ensures Texts(NodesOf(children, indent)) + "\n" == "\n" + Lines(children, indent)
    decreases children, 0
  {
    hide Text, NodeOf, Element, Spaces;
    if children != [] {
      var nodes, c := NodesOf(children, indent), children[0];
      NodeText(c, indent);
      NodesText(children[1..], indent);
      assert nodes[1..] == NodesOf(children[1..], indent);
      assert NewLine(indent) + Element(c, indent) + "\n" == "\n" + Line(c, indent);
      NextOnLine(Text(nodes[0]), Texts(nodes[1..]), Line(c, indent), Lines(children[1..], indent));
    }
  }

  // ---- What these tags mean ----

  lemma {:induction false} AttrsAreGood(props: seq<Prop>)
    requires GoodProps(props)
    ensures GoodAttrs(AttrsOf(props)) && ReadAttrs(AttrsOf(props)) == Readable(props)
    decreases |props|
  {
    hide Escape, Plain;
    if props != [] {
      var p := props[0];
      AttrsAreGood(props[1..]);
      assert GoodProp(p);
      EscapedIsSafe(p.1);
      EscapedIsUnread(p.1);
      PlainEscape(p.1);
      NoCloseInName(p.0);
      NoEqualsInName(p.0);
      assert AttrsOf(props)[1..] == AttrsOf(props[1..]);
      assert GoodAttr(AttrOf(p)) && (IsRead(AttrOf(p)) <==> Plain(p.1));
    }
  }

  lemma NoEqualsInName(name: string)
    requires name != "" && AllNameChars(name)
    ensures '=' !in name && !IsSpace(name[0])
  {
  }

  lemma {:induction false} IndentIsSpace(n: nat)
    ensures AllSpaces(Spaces(n)) && |Spaces(n)| == n
  {
    if n > 0 {
      IndentIsSpace(n - 1);
    }
  }

  lemma NewLineIsSpace(indent: nat)
    ensures AllSpaces(NewLine(indent)) && AllSpaces("")
  {
    IndentIsSpace(indent);
  }

  lemma BlankRegion(props: seq<Prop>)
    requires props != []
    ensures AttrsText(AttrsOf(props)) != "" && AttrsText(AttrsOf(props))[0] == ' '
  {
    hide Escape;
    assert AttrsOf(props)[0] == AttrOf(props[0]);
  }

  lemma InfoNodeMeans(i: Info, indent: nat)
    requires NUL !in i.name && NUL !in i.value
    ensures
      var n := InfoNode(i, indent);
      GoodNode(n) && ChildAccepted(n) && InfosOf(Listed(n)) == InfoBack(i)
  {
    hide Plain, Escape, AttrsOf, AttrsText;
    var n, props := InfoNode(i, indent), InfoProps(i);
    assert GoodProps(props);
    AttrsAreGood(props);
    BlankRegion(props);
    NewLineIsSpace(indent);
    assert props[1..] == [props[1]];
    ReadableOne(props[1]);
    if Plain(i.name) {
      assert Readable(props) == [props[0]] + Readable([props[1]]);
      LastOfRest(Readable(props), "name");
      LastOfRest(Readable(props), "value");
    }
  }

  lemma {:induction false} InfoNodesMean(infos: seq<Info>, indent: nat)
    requires forall k :: 0 <= k < |infos| ==> NUL !in infos[k].name && NUL !in infos[k].value
    ensures
      var nodes := InfoNodes(infos, indent);
      && (forall k :: 0 <= k < |nodes| ==> GoodNode(nodes[k])) && AllAccepted(nodes)
      && InfoTags(nodes) == InfosBack(infos) && ObjectTags(nodes) == []
    decreases |infos|
  {
    hide GoodNode, Accepted, ObjectOf, InfosOf, InfoBack, Listed, AllAccepted;
    if infos != [] {
      InfoNodeMeans(infos[0], indent);
      InfoNodesMean(infos[1..], indent);
      var nodes := InfoNodes(infos, indent);
      assert nodes[1..] == InfoNodes(infos[1..], indent);
      AcceptedStep(nodes);
      TagsStep(nodes);
    } else {
      NothingInside(BLANK);
    }
  }

  /** The tags of an object mean the object as it comes back. */
  lemma {:induction false} NodeMeans(o: XmlObject, indent: nat)
    requires Printable(o)
    ensures
      var n := NodeOf(o, indent);
      GoodNode(n) && n.name == "object" && Accepted(n) && ObjectOf(BLANK, n) == Canon(o)
    decreases o, 1
  {
    hide AttrsOf, AttrsText, Props, Spaces, InfoNodes, NodesOf, NewLine, AllAccepted, GoodAttrs, SetAttrs, Described;
    hide AllSpaces, TypesKnown, InfosBack, CanonAll, Reread, ReadBack;
    var n := NodeOf(o, indent);
    var infos, children := InfoNodes(o.infos, indent + 2), NodesOf(o.children, indent + 2);
    PropsAreGood(o);
    AttrsAreGood(Props(o));
    BlankRegion(Props(o));
    NewLineIsSpace(indent);
    InfoNodesMean(o.infos, indent + 2);
    NodesMean(o.children, indent + 2);
    TagsAppend(infos, children);
    ReadProps(o);
    AttrsMean(BLANK, Readable(Props(o)));
    assert NodesOf([], indent + 2) == [] && InfoNodes([], indent + 2) == [] by { NoNodes(indent + 2); }
  }

  lemma NoNodes(indent: nat)
    ensures NodesOf([], indent) == [] && InfoNodes([], indent) == []
  {
  }

  lemma {:induction false} NodesMean(children: seq<XmlObject>, indent: nat)
    requires forall k :: 0 <= k < |children| ==> Printable(children[k])
    ensures
      var nodes := NodesOf(children, indent);
      && (forall k :: 0 <= k < |nodes| ==> GoodNode(nodes[k])) && AllAccepted(nodes)
      && InfoTags(nodes) == [] && ObjectTags(nodes) == CanonAll(children)
    decreases children, 0
  {
    hide GoodNode, Accepted, ObjectOf, InfosOf, Listed, AllAccepted, Canon, Printable;
    if children != [] {
      NodeMeans(children[0], indent);
      NodesMean(children[1..], indent);
      var nodes := NodesOf(children, indent);
      assert nodes[1..] == NodesOf(children[1..], indent);
      AcceptedStep(nodes);
      TagsStep(nodes);
    } else {
      NothingInside(BLANK);
    }
  }

  lemma {:induction false} TagsAppend(a: seq<Node>, b: seq<Node>)
    ensures InfoTags(a + b) == InfoTags(a) + InfoTags(b)
    ensures ObjectTags(a + b) == ObjectTags(a) + ObjectTags(b)
    ensures AllAccepted(a + b) <==> AllAccepted(a) && AllAccepted(b)
    decreases |a|
  {
    hide ObjectOf, InfosOf, Listed, AllAccepted, InfoTags, ObjectTags, ChildAccepted;
    if a == [] {
      assert a + b == b;
      NothingInside(BLANK);
      NoTags();
    } else {
      assert (a + b)[1..] == a[1..] + b;
      TagsAppend(a[1..], b);
      AcceptedStep(a);
      AcceptedStep(a + b);
      TagsStep(a);
      TagsStep(a + b);
    }
  }

  lemma NoTags()
    ensures InfoTags([]) == [] && ObjectTags([]) == []
  {
  }

  // ---- The document ----

  const LINES := [XML_LINE, DOCTYPE_LINE]
  const END := "\n</topology>\n"

  lemma WriterText(o: XmlObject)
    ensures Document(o) == DocumentText(LINES, NodeOf(o, 2), END)
  {
    hide Element, NodeOf, Text, Spaces;
    NodeText(o, 2);
    assert LINES[1..] == [DOCTYPE_LINE] && LINES[1..][1..] == [];
    assert Headers([]) == "" && Headers([DOCTYPE_LINE]) == DOCTYPE_LINE + ("\n" + Headers([DOCTYPE_LINE][1..]));
    assert Headers(LINES) == XML_LINE + ("\n" + Headers(LINES[1..]));
    Assembled(XML_LINE, DOCTYPE_LINE, Spaces(2), Element(o, 2));
  }

  lemma Assembled(a: string, b: string, indent: string, element: string)
    ensures (a + "\n" + b + "\n") + "<topology>\n" + (indent + element + "\n") + "</topology>\n"
      == (a + ("\n" + (b + ("\n" + "")))) + (TOPOLOGY + (("\n" + indent + element) + END))
  {
  }

  lemma LinesAreHeaders()
    ensures HeaderLines(LINES)
  {
    hide HeaderLine;
    XmlLine();
    DoctypeLine();
  }

  lemma XmlLine()
    ensures HeaderLine(XML_LINE)
  {
  }

  lemma DoctypeLine()
    ensures HeaderLine(DOCTYPE_LINE)
  {
  }

  /** What the reader makes of the writer's document. */
  lemma DocumentRead(o: XmlObject)
    requires Printable(o)
    ensures ParseDocument(BLANK, Document(o)) == Done(Canon(o), END)
  {
    hide HeaderLines, GoodNode, ParseDocument, DocumentText, Accepted, ObjectOf, NodeOf, Canon, Document, Printable;
    WriterText(o);
    LinesAreHeaders();
    NodeMeans(o, 2);
    DocumentMeans(BLANK, LINES, NodeOf(o, 2), END);
  }

  /** Every document of the writer can be read, and gives back the tree that was written exactly when
      no name, info name or info value of it has one of the seven characters that are escaped. */
  lemma DocumentRoundTrip(o: XmlObject)
    requires Printable(o)
    ensures ParseDocument(BLANK, Document(o)).Done?
    ensures SameTree(o, ParseDocument(BLANK, Document(o)).o) <==> PlainTree(o)
  {
    hide Document, ParseDocument, SameTree, PlainTree, Canon;
    DocumentRead(o);
    CanonIsSame(o);
  }

  /** A machine called `a<b` comes back without a name. */
  lemma EscapedNameIsLost()
    ensures
      var o := BLANK.(typ := Some(Machine), name := Some("a<b"));
      var r := ParseDocument(BLANK, Document(o));
      r.Done? && r.o.typ == o.typ && r.o.name == None
  {
    hide Document, ParseDocument;
    var o := BLANK.(typ := Some(Machine), name := Some("a<b"));
    DocumentRead(o);
    assert "a<b"[1] in SPECIAL;
    assert !Plain("a<b");
  }

  /** Adding attributes that the reader does not look at anywhere in the tags of a written document, or
      writing it with other blanks, changes nothing of what is read. */
  lemma WrittenWithOthers(o: XmlObject, lines: seq<string>, root: Node, end: string)
    requires Printable(o) && HeaderLines(lines) && GoodNode(root) && SameButOthers(NodeOf(o, 2), root)
    ensures ParseDocument(BLANK, DocumentText(lines, root, end)).Done?
    ensures SameOutcome(ParseDocument(BLANK, Document(o)), ParseDocument(BLANK, DocumentText(lines, root, end)))
  {
    hide HeaderLines, GoodNode, ParseDocument, DocumentText, SameButOthers, Accepted, ObjectOf, NodeOf, Canon, Document,
        Printable;
    DocumentRead(o);
    MeansCanon(o, root);
    DocumentMeans(BLANK, lines, root, end);
  }

  lemma MeansCanon(o: XmlObject, root: Node)
    requires Printable(o) && SameButOthers(NodeOf(o, 2), root)
    ensures root.name == "object" && Accepted(root) && ObjectOf(BLANK, root) == Canon(o)
  {
    hide Known, Accepted, ObjectOf, NodeOf, Canon, Printable;
    NodeMeans(o, 2);
    SameMeaning(BLANK, NodeOf(o, 2), root);
  }
}
