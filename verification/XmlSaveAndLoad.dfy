/** Exporting a topology to a buffer and importing it again (src/topology-xml.c, without libxml). */
module XmlSaveAndLoad {
  import opened ObjTypes
  import opened Bitmap
  import opened Collections
  import opened TextBuffer
  import opened XmlObjects
  import opened XmlParser
  import opened XmlNodes
  import opened XmlMeaning
  import opened XmlRoundTrip
  import opened XmlReader
  import XmlWriter

  predicate NoNul(text: string) {
    NUL !in text
  }

  lemma NoNulAppend(a: string, b: string)
    ensures NoNul(a + b) <==> NoNul(a) && NoNul(b)
  {
  }

  lemma {:induction false} SpacesNoNul(n: nat)
    ensures NoNul(Spaces(n))
  {
    if n > 0 {
      SpacesNoNul(n - 1);
    }
  }

  lemma {:induction false} PropsNoNul(props: seq<Prop>)
    requires GoodProps(props)
    ensures NoNul(PropsText(props))
  {
    hide Escape;
    if props != [] {
      var p := props[0];
      assert GoodProp(p);
      EscapedIsSafe(p.1);
      assert NoNul(p.0);
      assert NoNul(PropText(p));
      PropsNoNul(props[1..]);
    }
  }

  lemma {:induction false} InfosNoNul(infos: seq<Info>, indent: nat)
    requires forall k :: 0 <= k < |infos| ==> NUL !in infos[k].name && NUL !in infos[k].value
    ensures NoNul(InfoLines(infos, indent))
  {
    hide Plain, PropsText, Spaces;
    if infos != [] {
      assert GoodProps(InfoProps(infos[0]));
      PropsNoNul(InfoProps(infos[0]));
      SpacesNoNul(indent);
      InfosNoNul(infos[1..], indent);
    }
  }

  lemma {:induction false} ElementNoNul(o: XmlObject, indent: nat)
    requires Printable(o)
    ensures NoNul(Line(o, indent))
    decreases o, 1
  {
    hide Plain, PropsText, Props, Spaces, InfoLines, Lines;
    PropsAreGood(o);
    PropsNoNul(Props(o));
    SpacesNoNul(indent);
    InfosNoNul(o.infos, indent + 2);
    LinesNoNul(o.children, indent + 2);
  }

  lemma {:induction false} LinesNoNul(children: seq<XmlObject>, indent: nat)
    requires forall k :: 0 <= k < |children| ==> Printable(children[k])
    ensures NoNul(Lines(children, indent))
    decreases children, 0
  {
    hide Line;
    if children != [] {
      ElementNoNul(children[0], indent);
      LinesNoNul(children[1..], indent);
    }
  }

  lemma DocumentNoNul(o: XmlObject)
    requires Printable(o)
    ensures NoNul(Document(o))
  {
    hide Line, Printable;
    ElementNoNul(o, 2);
    FixedNoNul();
    NoNulAppend(HEADER, "<topology>\n");
    NoNulAppend(HEADER + "<topology>\n", Line(o, 2));
    NoNulAppend(HEADER + "<topology>\n" + Line(o, 2), "</topology>\n");
  }

  lemma FixedNoNul()
    ensures NoNul(HEADER) && NoNul("<topology>\n") && NoNul("</topology>\n")
  {
    NoNulAppend(XML_HEADER, "version=\"1.0\" encoding=\"UTF-8\"?>");
    NoNulAppend(DOCTYPE, "topology SYSTEM \"hwloc.dtd\">");
    NoNulAppend(XML_LINE, "\n");
    NoNulAppend(XML_LINE + "\n", DOCTYPE_LINE);
    NoNulAppend(XML_LINE + "\n" + DOCTYPE_LINE, "\n");
  }

  /** The exported buffer can always be imported, and gives back the tree that was written exactly when
      none of its strings was escaped. */
  method SaveAndLoad(o: XmlObject) returns (r: XmlObject)
    requires Printable(o)
    ensures SameTree(o, r) <==> PlainTree(o)
  {
    hide Document, ParseDocument, SameTree, PlainTree, Printable, Holds;
    var buffer, size := XmlWriter.Export(o);
    DocumentRoundTrip(o);
    DocumentNoNul(o);
    assert Holds(buffer, 0, Document(o)) by {
      InBuffer(buffer, Document(o));
    }
    var status;
    status, r := Import(buffer, BLANK, Document(o));
  }

  lemma InBuffer(buffer: array<char>, text: string)
    requires |text| < buffer.Length && buffer[..|text|] == text && buffer[|text|] == NUL && NoNul(text)
    ensures Holds(buffer, 0, text)
  {
  }

  /** A document with well-formed tags, in a buffer: the outcome is what its tags mean. */
  method ImportTags(buffer: array<char>, o: XmlObject, ghost lines: seq<string>, ghost root: Node, ghost end: string)
      returns (status: Status, r: XmlObject)
    requires HeaderLines(lines) && GoodNode(root) && Holds(buffer, 0, DocumentText(lines, root, end))
    modifies buffer
    ensures status == if root.name == "object" && Accepted(root) then Success else Error
    ensures status == Success ==> r == ObjectOf(o, root)
  {
    hide HeaderLines, GoodNode, ParseDocument, DocumentText, Holds, Accepted, ObjectOf;
    DocumentMeans(o, lines, root, end);
    status, r := Import(buffer, o, DocumentText(lines, root, end));
  }

  /** Two buffers, of which one holds what the other does but for blanks and other attributes. */
  method ImportTwice(first: array<char>, second: array<char>, o: XmlObject, ghost lines: seq<string>,
      ghost a: Node, ghost b: Node, ghost end: string)
      returns (status1: Status, r1: XmlObject, status2: Status, r2: XmlObject)
    requires HeaderLines(lines) && GoodNode(a) && GoodNode(b) && SameButOthers(a, b) && first != second
    requires Holds(first, 0, DocumentText(lines, a, end)) && Holds(second, 0, DocumentText(lines, b, end))
    modifies first, second
    ensures status1 == status2 && (status1 == Success || status1 == Error)
    ensures status1 == Success ==> r1 == r2
  {
    hide HeaderLines, GoodNode, ParseDocument, DocumentText, Holds, Accepted, ObjectOf, SameButOthers;
    SameName(a, b);
    if a.name == "object" {
      SameMeaning(o, a, b);
    }
    status1, r1 := ImportTags(first, o, lines, a, end);
    status2, r2 := ImportTags(second, o, lines, b, end);
  }

  lemma SameName(a: Node, b: Node)
    requires SameButOthers(a, b)
    ensures a.name == b.name
  {
  }
}
