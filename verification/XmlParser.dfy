/** Reading XML without libxml (src/topology-xml.c), as functions of the text that is left. The
    reader itself, which works in the buffer, follows them. */
module XmlParser {
  import opened ObjTypes
  import opened Bitmap
  import opened Collections
  import opened XmlObjects
  import opened TextBuffer
  import BitmapText
  import DecimalText

  // ---- Pieces ----

  predicate IsSpace(c: char) {
    c == ' ' || c == '\t' || c == '\n'
  }

  predicate IsNameChar(c: char) {
    'a' <= c <= 'z' || c == '_'
  }

  /** `hwloc__nolibxml_import_ignore_spaces`: how many. */
  function SpaceCount(text: string): (n: nat)
    ensures n <= |text|
  {
    if text != "" && IsSpace(text[0]) then 1 + SpaceCount(text[1..]) else 0
  }

  function SkipSpaces(text: string): (r: string)
    ensures |r| <= |text|
  {
    text[SpaceCount(text)..]
  }

  /** How many characters of a name. */
  function NameLength(text: string): (n: nat)
    ensures n <= |text|
  {
    if text != "" && IsNameChar(text[0]) then 1 + NameLength(text[1..]) else 0
  }

  /** `strchr`, as an index, or the length. */
  function Find(text: string, c: char): (n: nat)
    ensures n <= |text| && (n < |text| ==> text[n] == c)
    ensures forall k :: 0 <= k < n ==> text[k] != c
  {
    if text != "" && text[0] != c then 1 + Find(text[1..], c) else 0
  }

  /** How much of a value can be read: up to a quote or, since unescaping always fails, to a `&`. */
  function ValueLength(text: string): (n: nat)
    ensures n <= |text|
    ensures forall k :: 0 <= k < n ==> text[k] != '\"' && text[k] != '&'
    ensures n < |text| ==> text[n] == '\"' || text[n] == '&'
  {
    if text != "" && text[0] != '\"' && text[0] != '&' then 1 + ValueLength(text[1..]) else 0
  }

  // ---- Attributes ----

  datatype Attr = NoAttr | Overrun | Attr(name: string, value: string, rest: string)

  /** `hwloc__xml_import_next_attr`, on the text of a tag. An opening quote at the very end of the
      tag makes it read past the tag. */
  function NextAttr(text: string): (r: Attr)
    ensures r.Attr? ==> |r.rest| < |text|
  {
    var buffer := SkipSpaces(text);
    var n := NameLength(buffer);
    if !(n + 1 < |buffer| && buffer[n] == '=' && buffer[n + 1] == '\"') then NoAttr else
    var value := buffer[n + 2..];
    if value == "" then Overrun else
    var len := ValueLength(value);
    if len < |value| && value[len] == '\"' then Attr(buffer[..n], value[..len], SkipSpaces(value[len + 1..]))
        else NoAttr
  }

  /** All attributes of a tag. */
  datatype Attrs = Attrs(props: seq<Prop>) | Overruns

  function AllAttrs(text: string): Attrs
    decreases |text|
  {
    match NextAttr(text)
    case NoAttr => Attrs([])
    case Overrun => Overruns
    case Attr(name, value, rest) =>
      var later := AllAttrs(rest);
      if later.Overruns? then Overruns else Attrs([(name, value)] + later.props)
  }

  // ---- Tags ----

  /** What is found where a child may be. `Aborted` stands for the assertion that a tag has a name
      and something after it. */
  datatype Tag = NoChild | Malformed | Aborted | Child(name: string, attrs: string, closed: bool, rest: string)

  /** `hwloc__xml_import_find_child`, for a parent that is not closed. */
  function OpenTag(text: string): (r: Tag)
    ensures r.Child? ==> |r.rest| < |text|
  {
    var buffer := SkipSpaces(text);
    if buffer == "" || buffer[0] != '<' then Malformed else
    TagAfter(buffer[1..])
  }

  /** What comes after a `<`. */
  function TagAfter(tag: string): (r: Tag)
    ensures r.Child? ==> |r.rest| < |tag|
  {
    if tag != "" && tag[0] == '/' then NoChild else
    var end := Find(tag, '>');
    if end == |tag| then Malformed else
    var closed := end > 0 && tag[end - 1] == '/';
    TagParts(tag[..if closed then end - 1 else end], closed, tag[end + 1..])
  }

  /** The name of a tag and the text of its attributes. */
  function TagParts(inside: string, closed: bool, rest: string): (r: Tag)
    ensures !r.NoChild? && (r.Child? ==> r.rest == rest && r.closed == closed)
  {
    var n := NameLength(inside);
    if n == |inside| then Aborted
    else if inside[n] != ' ' then Malformed
    else Child(inside[..n], inside[n + 1..], closed, rest)
  }

  /** `hwloc__xml_import_close_tag`, for a tag that is not closed: what follows `</name>`. */
  function CloseTag(text: string, name: string): (r: Option<string>)
    ensures r.Some? ==> |r.value| < |text|
  {
    var buffer := SkipSpaces(text);
    if buffer == "" || buffer[0] != '<' then None else
    var tag := buffer[1..];
    var end := Find(tag, '>');
    if end == |tag| then None
    else if end == 0 || tag[0] != '/' || tag[1..end] != name then None
    else Some(tag[end + 1..])
  }

  // ---- Objects ----

  /** What `hwloc_bitmap_sscanf` makes of a text, in a new bitmap; a text that cannot be read gives
      the empty set. */
  function ReadSet(text: string): Bits {
    var (parsed, infinite) := BitmapText.Parse(text);
    if parsed.Done? then Bits(parsed.words, infinite) else Bits([ZERO], false)
  }

  /** One attribute of an object; an unknown type is an error, an unknown attribute is ignored. */
  function SetAttr(o: XmlObject, p: Prop): Option<XmlObject> {
    if p.0 == "type" then
      var t := TypeOfString(p.1);
      if t.Some? then Some(o.(typ := t)) else None
    else if p.0 == "os_index" then Some(o.(osIndex := Some(DecimalText.ReadNumber(p.1, 10, 0).0)))
    else if p.0 == "cpuset" then Some(o.(cpuset := Some(ReadSet(p.1))))
    else if p.0 == "complete_cpuset" then Some(o.(complete := Some(ReadSet(p.1))))
    else if p.0 == "online_cpuset" then Some(o.(online := Some(ReadSet(p.1))))
    else if p.0 == "allowed_cpuset" then Some(o.(allowed := Some(ReadSet(p.1))))
    else if p.0 == "name" then Some(o.(name := Some(p.1)))
    else if p.0 == "dmi_board_vendor" then Some(o.(infos := o.infos + [Info("DMIBoardVendor", p.1)]))
    else if p.0 == "dmi_board_name" then Some(o.(infos := o.infos + [Info("DMIBoardName", p.1)]))
    else Some(o)
  }

  function SetAttrs(o: XmlObject, props: seq<Prop>): Option<XmlObject>
    decreases |props|
  {
    if props == [] then Some(o) else
    var more := SetAttr(o, props[0]);
    if more.Some? then SetAttrs(more.value, props[1..]) else None
  }

  /** The name and the value of an info, when it only has such attributes. */
  function InfoOf(props: seq<Prop>, name: Option<string>, value: Option<string>)
    : Option<(Option<string>, Option<string>)>
  {
    if props == [] then Some((name, value))
    else if props[0].0 == "name" then InfoOf(props[1..], Some(props[0].1), value)
    else if props[0].0 == "value" then InfoOf(props[1..], name, Some(props[0].1))
    else None
  }

  datatype Parsed = Done(o: XmlObject, rest: string) | Failed | Abort | PastTag

  function AddInfo(o: XmlObject, i: (Option<string>, Option<string>)): XmlObject {
    if i.0.None? then o else o.(infos := o.infos + [Info(i.0.value, if i.1.Some? then i.1.value else "")])
  }

  /** `hwloc__xml_import_info`. */
  function ParseInfo(o: XmlObject, tag: Tag): (r: Parsed)
    requires tag.Child?
    ensures r.Done? ==> |r.rest| <= |tag.rest|
  {
    var attrs := AllAttrs(tag.attrs);
    if attrs.Overruns? then PastTag else
    var info := InfoOf(attrs.props, None, None);
    if info.None? then Failed
    else if tag.closed then Done(AddInfo(o, info.value), tag.rest)
    else
      var rest := CloseTag(tag.rest, tag.name);
      if rest.Some? then Done(AddInfo(o, info.value), rest.value) else Failed
  }

  /** `hwloc__xml_import_object`: the attributes, then the children, then the closing tag. */
  function ParseObject(o: XmlObject, tag: Tag): (r: Parsed)
    requires tag.Child?
    ensures r.Done? ==> |r.rest| <= |tag.rest|
    decreases |tag.rest|, 1
  {
    var attrs := AllAttrs(tag.attrs);
    if attrs.Overruns? then PastTag else
    var more := SetAttrs(o, attrs.props);
    if more.None? then Failed
    else if tag.closed then Done(more.value, tag.rest)
    else ParseChildren(more.value, tag.name, tag.rest)
  }

  function ParseChildren(o: XmlObject, name: string, text: string): (r: Parsed)
    ensures r.Done? ==> |r.rest| <= |text|
    decreases |text|, 0
  {
    match OpenTag(text)
    case Malformed => Failed
    case Aborted => Abort
    case NoChild =>
      var rest := CloseTag(text, name);
      if rest.Some? then Done(o, rest.value) else Failed
    case Child(child, _, _, _) =>
      var tag := OpenTag(text);
      if child == "object" then
        match ParseObject(BLANK, tag)
        case Done(c, rest) => ParseChildren(o.(children := o.children + [c]), name, rest)
        case Failed => Failed
        case Abort => Abort
        case PastTag => PastTag
      else if child == "info" then
        match ParseInfo(o, tag)
        case Done(more, rest) => ParseChildren(more, name, rest)
        case Failed => Failed
        case Abort => Abort
        case PastTag => PastTag
      else Failed
  }

  predicate StartsWith(text: string, start: string) {
    |text| >= |start| && text[..|start|] == start
  }

  const TOPOLOGY := "<topology>"

  /** The header lines. */
  function SkipHeaders(text: string): Option<string>
    decreases |text|
  {
    if StartsWith(text, XML_HEADER) || StartsWith(text, DOCTYPE) then
      var end := Find(text, '\n');
      if end == |text| then None else SkipHeaders(text[end + 1..])
    else Some(text)
  }

  /** `hwloc_look_xml`: the document, read into the object `o`. */
  function ParseDocument(o: XmlObject, text: string): Parsed {
    var body := SkipHeaders(text);
    if body.None? || !StartsWith(body.value, TOPOLOGY) then Failed else
    match OpenTag(body.value[|TOPOLOGY|..])
    case Malformed => Failed
    case Aborted => Abort
    case NoChild => Failed
    case Child(name, _, _, _) =>
      if name == "object" then ParseObject(o, OpenTag(body.value[|TOPOLOGY|..])) else Failed
  }
}
