/** Objects as XML (src/topology-xml.c, without libxml): what the writer makes of a tree of objects. */
module XmlObjects {
  import opened ObjTypes
  import opened Bitmap
  import opened Collections
  import opened TextBuffer
  import BitmapText
  import DecimalText

  datatype Info = Info(name: string, value: string)

  /** An object with what is written of it. The type of an object that is being read may not be
      known yet. */
  datatype XmlObject = XmlObject(typ: Option<ObjType>, osIndex: Option<nat>,
                                 cpuset: Option<Bits>, complete: Option<Bits>,
                                 online: Option<Bits>, allowed: Option<Bits>,
                                 name: Option<string>, infos: seq<Info>, children: seq<XmlObject>)

  const BLANK := XmlObject(None, None, None, None, None, None, None, [], [])

  function Lower(text: string): string {
    seq(|text|, k requires 0 <= k < |text| => if 'A' <= text[k] <= 'Z' then text[k] + 32 as char else text[k])
  }

  /** `hwloc_obj_type_string`. */
  function TypeString(t: ObjType): string {
    match t
    case System => "System"
    case Machine => "Machine"
    case Misc => "Misc"
    case Group => "Group"
    case NumaNode => "NUMANode"
    case Socket => "Socket"
    case Cache => "Cache"
    case Core => "Core"
    case Bridge => "Bridge"
    case PciDevice => "PCIDev"
    case OsDevice => "OSDev"
    case PU => "PU"
  }

  /** `hwloc_obj_type_of_string`, which ignores case. */
  function TypeOfString(text: string): Option<ObjType> {
    var t := Lower(text);
    if t == "system" then Some(System)
    else if t == "machine" then Some(Machine)
    else if t == "misc" then Some(Misc)
    else if t == "group" then Some(Group)
    else if t == "numanode" || t == "node" then Some(NumaNode)
    else if t == "socket" then Some(Socket)
    else if t == "cache" then Some(Cache)
    else if t == "core" then Some(Core)
    else if t == "pu" || t == "proc" then Some(PU)
    else if t == "bridge" then Some(Bridge)
    else if t == "pcidev" then Some(PciDevice)
    else if t == "osdev" then Some(OsDevice)
    else None
  }

  lemma TypeRoundTrip(t: ObjType)
    ensures TypeOfString(TypeString(t)) == Some(t)
  {
    LowerTypes(t);
  }

  function LowerType(t: ObjType): string {
    match t
    case System => "system"
    case Machine => "machine"
    case Misc => "misc"
    case Group => "group"
    case NumaNode => "numanode"
    case Socket => "socket"
    case Cache => "cache"
    case Core => "core"
    case Bridge => "bridge"
    case PciDevice => "pcidev"
    case OsDevice => "osdev"
    case PU => "pu"
  }

  lemma LowerTypes(t: ObjType)
    ensures Lower(TypeString(t)) == LowerType(t)
  {
  }

  // ---- Escaping ----

  const SPECIAL := "\n\r\t\"<>&"

  function EscapeChar(c: char): string {
    match c
    case '\n' => "&#10;"
    case '\r' => "&#13;"
    case '\t' => "&#9;"
    case '\"' => "&quot;"
    case '<' => "&lt;"
    case '>' => "&gt;"
    case '&' => "&amp;"
    case _ => [c]
  }

  function Escape(text: string): string {
    if text == "" then "" else EscapeChar(text[0]) + Escape(text[1..])
  }

  /** Nothing to escape, and no end of string. */
  predicate Plain(text: string) {
    forall k :: 0 <= k < |text| ==> text[k] !in SPECIAL && text[k] != NUL
  }

  lemma {:induction false} PlainEscape(text: string)
    ensures Plain(text) ==> Escape(text) == text
  {
    if text != "" {
      PlainEscape(text[1..]);
      assert Plain(text) ==> text[0] !in SPECIAL && Plain(text[1..]);
      assert text == [text[0]] + text[1..];
    }
  }

  /** Whatever was escaped, the result can stand between quotes, inside a tag. */
  lemma {:induction false} EscapedIsSafe(text: string)
    ensures |Escape(text)| <= 6 * |text|
    ensures '\"' !in Escape(text) && '>' !in Escape(text) && '<' !in Escape(text)
    ensures NUL !in text ==> NUL !in Escape(text)
  {
    hide EscapeChar;
    if text != "" {
      EscapedIsSafe(text[1..]);
      CharIsSafe(text[0]);
    }
  }

  lemma CharIsSafe(c: char)
    ensures var e := EscapeChar(c);
      |e| <= 6 && '\"' !in e && '>' !in e && '<' !in e && (c != NUL ==> NUL !in e)
  {
  }

  // ---- The text of an object ----

  type Prop = (string, string)

  function PropText(p: Prop): string {
    " " + p.0 + "=\"" + Escape(p.1) + "\""
  }

  function PropsText(props: seq<Prop>): string {
    if props == [] then "" else PropText(props[0]) + PropsText(props[1..])
  }

  function SetProp(name: string, b: Option<Bits>): seq<Prop> {
    if b.Some? && |b.value.words| >= 1 then [(name, BitmapText.Text(b.value))] else []
  }

  function InfoProps(i: Info): seq<Prop> {
    [("name", i.name), ("value", i.value)]
  }

  function Props(o: XmlObject): seq<Prop> {
    (if o.typ.Some? then [("type", TypeString(o.typ.value))] else [("type", "Unknown")])
    + (if o.osIndex.Some? then [("os_index", DecimalText.Decimal(o.osIndex.value))] else [])
    + SetProp("cpuset", o.cpuset) + SetProp("complete_cpuset", o.complete)
    + SetProp("online_cpuset", o.online) + SetProp("allowed_cpuset", o.allowed)
    + (if o.name.Some? then [("name", o.name.value)] else [])
  }

  function Spaces(n: nat): string {
    if n == 0 then "" else " " + Spaces(n - 1)
  }

  function InfoLine(i: Info, indent: nat): string {
    Spaces(indent) + "<info" + PropsText(InfoProps(i)) + "/>\n"
  }

  function InfoLines(infos: seq<Info>, indent: nat): string {
    if infos == [] then "" else InfoLine(infos[0], indent) + InfoLines(infos[1..], indent)
  }

  /** The line, or lines, of an object. */
  function Line(o: XmlObject, indent: nat): string
    decreases o, 1
  {
    Spaces(indent) + Element(o, indent) + "\n"
  }

  function Element(o: XmlObject, indent: nat): string
    decreases o, 0
  {
    "<object" + PropsText(Props(o))
    + if o.infos == [] && o.children == [] then "/>"
      else ">\n" + InfoLines(o.infos, indent + 2) + Lines(o.children, indent + 2) + Spaces(indent) + "</object>"
  }

  function Lines(children: seq<XmlObject>, indent: nat): string
    decreases children
  {
    if children == [] then "" else Line(children[0], indent) + Lines(children[1..], indent)
  }

  const XML_HEADER := "<?xml "
  const DOCTYPE := "<!DOCTYPE "
  const XML_LINE := XML_HEADER + "version=\"1.0\" encoding=\"UTF-8\"?>"
  const DOCTYPE_LINE := DOCTYPE + "topology SYSTEM \"hwloc.dtd\">"
  const HEADER := XML_LINE + "\n" + DOCTYPE_LINE + "\n"

  function Document(o: XmlObject): string {
    HEADER + "<topology>\n" + Line(o, 2) + "</topology>\n"
  }
}
