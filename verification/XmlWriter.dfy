/** Writing XML without libxml (src/topology-xml.c): escaping, and the printer that advances through
    its buffer. */
module XmlWriter {
  import opened ObjTypes
  import opened Bitmap
  import opened Collections
  import opened TextBuffer
  import opened XmlObjects
  import BitmapText
  import DecimalText

  // ---- Escaping ----

  predicate Special(c: char) {
    c in SPECIAL
  }

  /** `strcspn(src, "\n\r\t\"<>&")`. */
  function PlainLength(text: string): (n: nat)
    ensures n <= |text| && (n < |text| ==> Special(text[n]))
    ensures forall k :: 0 <= k < n ==> !Special(text[k])
  {
    if text != "" && !Special(text[0]) then 1 + PlainLength(text[1..]) else 0
  }

  lemma {:induction false} EscapeAppend(a: string, b: string)
    ensures Escape(a + b) == Escape(a) + Escape(b)
  {
    hide EscapeChar, Escape;
    EscapeStep(a);
    EscapeStep(a + b);
    if a == "" {
      assert a + b == b;
    } else {
      EscapeAppend(a[1..], b);
      assert (a + b)[1..] == a[1..] + b;
    }
  }

  lemma EscapeStep(text: string)
    ensures Escape(text) == if text == "" then "" else EscapeChar(text[0]) + Escape(text[1..])
  {
    hide EscapeChar;
  }

  lemma {:induction false} EscapePlain(text: string)
    requires forall k :: 0 <= k < |text| ==> !Special(text[k])
    ensures Escape(text) == text
  {
    if text != "" {
      EscapePlain(text[1..]);
      assert text == [text[0]] + text[1..];
    }
  }

  /** `memcpy` or `strcpy` into the result. */
  method Append(buffer: array<char>, at: nat, text: string)
    requires at + |text| <= buffer.Length
    modifies buffer
    ensures buffer[..at + |text|] == old(buffer[..at]) + text
  {
    forall k | 0 <= k < |text| {
      buffer[at + k] := text[k];
    }
  }

  /** The first `i` characters have been escaped. */
  ghost predicate Escaped(escaped: array<char>, dst: nat, src: string, i: nat)
    reads escaped
  {
    && i <= |src| && escaped.Length == 6 * |src| + 1 && dst <= 6 * i
    && escaped[..dst] == Escape(src[..i])
  }

  /** The plain characters up to the next one that is not. */
  method CopyPlain(escaped: array<char>, dst: nat, src: string, i: nat) returns (dst': nat, i': nat)
    requires Escaped(escaped, dst, src, i)
    modifies escaped
    ensures i <= i' && Escaped(escaped, dst', src, i') && (i' < |src| ==> Special(src[i']))
  {
    hide Special, Escape;
    var sublen := PlainLength(src[i..]);
    var run := src[i..i + sublen];
    assert forall k :: 0 <= k < sublen ==> run[k] == src[i..][k];
    EscapePlain(run);
    EscapeAppend(src[..i], run);
    assert src[..i] + run == src[..i + sublen];
    Append(escaped, dst, run);
    dst', i' := dst + sublen, i + sublen;
  }

  lemma OneEscaped(src: string, i: nat)
    requires i < |src|
    ensures Escape(src[..i + 1]) == Escape(src[..i]) + EscapeChar(src[i]) && |EscapeChar(src[i])| <= 6
  {
    EscapeAppend(src[..i], [src[i]]);
    assert src[..i] + [src[i]] == src[..i + 1];
    assert [src[i]][1..] == "";
    assert Escape([src[i]]) == EscapeChar(src[i]) + "";
  }

  /** `hwloc__xml_export_escape_string`: nothing when there is nothing to escape; the result always
      fits the six-fold buffer. */
  method EscapeString(src: string) returns (escaped: array?<char>, length: nat)
    ensures escaped == null <==> forall k :: 0 <= k < |src| ==> !Special(src[k])
    ensures escaped != null ==>
      fresh(escaped) && length <= 6 * |src| < escaped.Length && escaped[..length] == Escape(src)
          && escaped[length] == NUL
  {
    hide Special, Escape, EscapeChar;
    var fulllen := |src|;
    if PlainLength(src) == fulllen {
      return null, 0;
    }
    escaped := new char[fulllen * 6 + 1](_ => NUL);
    var dst: nat, i: nat := 0, 0;
    EscapePlain("");
    assert escaped[..0] == "" == src[..0];
    dst, i := CopyPlain(escaped, dst, src, i);
    while i < fulllen
      invariant escaped.Length == 6 * fulllen + 1 && fresh(escaped)
      invariant Escaped(escaped, dst, src, i) && (i < fulllen ==> Special(src[i]))
      decreases fulllen - i
    {
      OneEscaped(src, i);
      Append(escaped, dst, EscapeChar(src[i]));
      dst, i := dst + |EscapeChar(src[i])|, i + 1;
      dst, i := CopyPlain(escaped, dst, src, i);
    }
    assert src[..i] == src;
    escaped[dst] := NUL;
    assert escaped[..dst] == Escape(src);
    length := dst;
  }

  // ---- What an XML reader makes of escaped text ----

  /** A reference between `&` and `;`: a character number, or one of the five predefined names
      (sections 4.1 and 4.6 of XML 1.0, fifth edition). */
  function Reference(name: string): Option<char> {
    if name == "lt" then Some('<')
    else if name == "gt" then Some('>')
    else if name == "amp" then Some('&')
    else if name == "quot" then Some('\"')
    else if name == "apos" then Some('\'')
    else if |name| > 1 && name[0] == '#' then
      var (code, rest) := DecimalText.ReadNumber(name[1..], 10, 0);
      if rest == "" && code < 0xD800 then Some(code as char) else None
    else None
  }

  function Position(text: string, c: char): (n: nat)
    ensures n <= |text|
  {
    if text != "" && text[0] != c then 1 + Position(text[1..], c) else 0
  }

  /** The value of an attribute from its text. */
  function Decode(text: string): Option<string>
    decreases |text|
  {
    if text == "" then Some("")
    else if text[0] != '&' then
      var rest := Decode(text[1..]);
      if rest.Some? then Some([text[0]] + rest.value) else None
    else
      var end := Position(text, ';');
      if end == 0 || end == |text| then None else
      var c := Reference(text[1..end]);
      var rest := Decode(text[end + 1..]);
      if c.Some? && rest.Some? then Some([c.value] + rest.value) else None
  }

  lemma {:induction false} PositionOf(text: string, c: char, rest: string)
    requires c !in text
    ensures Position(text + ([c] + rest), c) == |text|
  {
    if text == "" {
      assert text + ([c] + rest) == [c] + rest;
    } else {
      assert text[0] in text;
      PositionOf(text[1..], c, rest);
      assert (text + ([c] + rest))[1..] == text[1..] + ([c] + rest);
    }
  }

  /** The name of the reference for a character. */
  function RefName(c: char): string {
    match c
    case '\n' => "#10"
    case '\r' => "#13"
    case '\t' => "#9"
    case '\"' => "quot"
    case '<' => "lt"
    case '>' => "gt"
    case _ => "amp"
  }

  lemma CharNumber(c: char)
    requires c in "\n\r\t"
    ensures Reference(RefName(c)) == Some(c)
  {
    var n := c as int;
    DecimalText.ReadDecimal(n, "");
    DecimalText.ReadStops("", n);
    assert DecimalText.Decimal(n) + "" == DecimalText.Decimal(n);
    SmallDecimals();
    assert RefName(c)[1..] == DecimalText.Decimal(n);
  }

  lemma SmallDecimals()
    ensures DecimalText.Decimal(10) == "10" && DecimalText.Decimal(13) == "13" && DecimalText.Decimal(9) == "9"
  {
    assert DecimalText.Decimal(1) == "1";
  }

  lemma ReferenceBack(c: char)
    requires Special(c)
    ensures Reference(RefName(c)) == Some(c) && ';' !in RefName(c)
    ensures EscapeChar(c) == "&" + RefName(c) + ";"
  {
    if c in "\n\r\t" {
      CharNumber(c);
    }
  }

  lemma DecodeOne(c: char, rest: string)
    ensures Decode(EscapeChar(c) + rest) == var r := Decode(rest); if r.Some? then Some([c] + r.value) else None
  {
    hide Reference, RefName;
    if Special(c) {
      ReferenceBack(c);
      var text := EscapeChar(c) + rest;
      assert text == "&" + RefName(c) + ([';'] + rest);
      PositionOf("&" + RefName(c), ';', rest);
      assert text[1..|RefName(c)| + 1] == RefName(c) && text[|RefName(c)| + 2..] == rest;
    } else {
      assert EscapeChar(c) == [c];
      assert ([c] + rest)[1..] == rest;
    }
  }

  /** An XML reader gets back any text, whatever it contains. */
  lemma {:induction false} DecodeEscape(text: string)
    ensures Decode(Escape(text)) == Some(text)
  {
    hide EscapeChar, Decode;
    if text == "" {
      DecodeNothing();
    } else {
      DecodeEscape(text[1..]);
      DecodeOne(text[0], Escape(text[1..]));
      assert text == [text[0]] + text[1..];
    }
  }

  lemma DecodeNothing()
    ensures Decode("") == Some("")
  {
  }

  // ---- The printer ----

  lemma {:induction false} PropsTextAppend(p: seq<Prop>, q: seq<Prop>)
    ensures PropsText(p + q) == PropsText(p) + PropsText(q)
  {
    hide PropText, PropsText;
    PropsStep(p);
    PropsStep(p + q);
    if p == [] {
      assert p + q == q;
    } else {
      PropsTextAppend(p[1..], q);
      assert (p + q)[1..] == p[1..] + q;
    }
  }

  lemma PropsStep(p: seq<Prop>)
    ensures PropsText(p) == if p == [] then "" else PropText(p[0]) + PropsText(p[1..])
  {
    hide PropText;
  }

  lemma OneProp(p: Prop)
    ensures PropsText([p]) == PropText(p) && PropsText([]) == ""
  {
    hide PropText;
    assert [p][1..] == [];
    assert PropText(p) + "" == PropText(p);
  }

  /** `hwloc__xml_export_output_s`: the buffer and how far the next line is indented. */
  class XmlOutput {
    const out: Output
    var indent: nat

    ghost predicate Valid()
      reads this, out, out.buffer
    {
      out.Valid()
    }

    constructor (out: Output)
      requires out.Valid()
      ensures this.out == out && indent == 0 && Valid()
    {
      this.out := out;
      indent := 0;
    }

    /** `hwloc__xml_export_new_child`. */
    method NewChild(name: string)
      requires Valid()
      modifies this`indent, out, out.buffer
      ensures Valid() && indent == old(indent) + 2
      ensures out.text == old(out.text) + (Spaces(old(indent)) + "<" + name)
    {
      out.Put(Spaces(indent) + "<" + name);
      indent := indent + 2;
    }

    /** `hwloc__xml_export_new_prop`. */
    method NewProp(name: string, value: string)
      requires Valid()
      modifies out, out.buffer
      ensures Valid() && out.text == old(out.text) + PropsText([(name, value)])
    {
      hide Escape, PropsText;
      var escaped, length := EscapeString(value);
      if escaped == null {
        EscapePlain(value);
      }
      var text := if escaped != null then escaped[..length] else value;
      OneProp((name, value));
      assert " " + name + "=\"" + text + "\"" == PropText((name, value));
      out.Put(" " + name + "=\"" + text + "\"");
    }

    /** `hwloc__xml_export_end_props`. */
    method EndProps(nrChildren: nat)
      requires Valid()
      modifies out, out.buffer
      ensures Valid() && out.text == old(out.text) + if nrChildren > 0 then ">\n" else "/>\n"
    {
      out.Put(if nrChildren > 0 then ">\n" else "/>\n");
    }

    /** `hwloc__xml_export_end_child`. */
    method EndChild(name: string, nrChildren: nat)
      requires Valid() && indent >= 2
      modifies this`indent, out, out.buffer
      ensures Valid() && indent == old(indent) - 2
      ensures out.text == old(out.text) + if nrChildren > 0 then Spaces(indent) + "</" + name + ">\n" else ""
    {
      indent := indent - 2;
      if nrChildren > 0 {
        out.Put(Spaces(indent) + "</" + name + ">\n");
      } else {
        assert out.text + "" == out.text;
      }
    }

    /** One of the sets of an object, printed as a bitmap. */
    method SetProperty(name: string, b: Option<Bits>)
      requires Valid()
      modifies out, out.buffer
      ensures Valid() && out.text == old(out.text) + PropsText(SetProp(name, b))
    {
      hide PropsText, BitmapText.Text;
      if b.Some? && |b.value.words| >= 1 {
        NewProp(name, BitmapText.Text(b.value));
      } else {
        OneProp(("", ""));
        assert out.text + "" == out.text;
      }
    }

    method ExportProps(o: XmlObject)
      requires Valid()
      modifies out, out.buffer
      ensures Valid() && out.text == old(out.text) + PropsText(Props(o))
    {
      hide PropsText, SetProp, DecimalText.Decimal;
      ghost var before := out.text;
      ghost var p1 := [("type", if o.typ.Some? then TypeString(o.typ.value) else "Unknown")];
      ghost var p2 := if o.osIndex.Some? then [("os_index", DecimalText.Decimal(o.osIndex.value))] else [];
      ghost var p7 := if o.name.Some? then [("name", o.name.value)] else [];
      OneProp(("", ""));
      NewProp("type", if o.typ.Some? then TypeString(o.typ.value) else "Unknown");
      if o.osIndex.Some? {
        NewProp("os_index", DecimalText.Decimal(o.osIndex.value));
      }
      assert out.text == before + PropsText(p1) + PropsText(p2);
      SetProperty("cpuset", o.cpuset);
      SetProperty("complete_cpuset", o.complete);
      SetProperty("online_cpuset", o.online);
      SetProperty("allowed_cpuset", o.allowed);
      if o.name.Some? {
        NewProp("name", o.name.value);
      }
      AllProps(before, p1, p2, SetProp("cpuset", o.cpuset), SetProp("complete_cpuset", o.complete),
               SetProp("online_cpuset", o.online), SetProp("allowed_cpuset", o.allowed), p7);
      assert Props(o) == p1 + p2 + SetProp("cpuset", o.cpuset) + SetProp("complete_cpuset", o.complete)
                         + SetProp("online_cpuset", o.online) + SetProp("allowed_cpuset", o.allowed) + p7;
    }

    method ExportInfo(i: Info)
      requires Valid()
      modifies this`indent, out, out.buffer
      ensures Valid() && indent == old(indent) && out.text == old(out.text) + InfoLine(i, indent)
    {
      hide PropsText, Spaces;
      ghost var before := out.text;
      NewChild("info");
      NewProp("name", i.name);
      NewProp("value", i.value);
      PropsTextAppend([("name", i.name)], [("value", i.value)]);
      assert InfoProps(i) == [("name", i.name)] + [("value", i.value)];
      EndProps(0);
      EndChild("info", 0);
      InfoJoined(before, Spaces(indent), PropsText([("name", i.name)]), PropsText([("value", i.value)]));
    }

    method ExportInfos(infos: seq<Info>)
      requires Valid()
      modifies this`indent, out, out.buffer
      ensures Valid() && indent == old(indent) && out.text == old(out.text) + InfoLines(infos, indent)
    {
      hide InfoLines, InfoLine;
      ghost var before := out.text;
      NoInfoLines(indent);
      assert infos[..0] == [] && before + "" == before;
      for i := 0 to |infos|
        invariant Valid() && indent == old(indent) && out.text == before + InfoLines(infos[..i], indent)
      {
        MoreInfoLines(infos[..i], infos[i], indent);
        assert infos[..i] + [infos[i]] == infos[..i + 1];
        ExportInfo(infos[i]);
      }
      assert infos[..|infos|] == infos;
    }

    /** `hwloc__xml_export_object`. */
    method ExportObject(o: XmlObject)
      requires Valid()
      modifies this`indent, out, out.buffer
      ensures Valid() && indent == old(indent) && out.text == old(out.text) + Line(o, indent)
      decreases o, 1
    {
      hide Line, PropsText, Props, Spaces, InfoLines, Lines;
      ghost var before, start := out.text, indent;
      var nrChildren := |o.infos| + |o.children|;
      NewChild("object");
      ExportProps(o);
      EndProps(nrChildren);
      ExportInfos(o.infos);
      ExportChildren(o);
      EndChild("object", nrChildren);
      LineJoined(before, o, start);
    }

    method ExportChildren(o: XmlObject)
      requires Valid()
      modifies this`indent, out, out.buffer
      ensures Valid() && indent == old(indent) && out.text == old(out.text) + Lines(o.children, indent)
      decreases o, 0
    {
      hide Lines, Line;
      ghost var before := out.text;
      NoLines(indent);
      assert o.children[..0] == [] && before + "" == before;
      for x := 0 to |o.children|
        invariant Valid() && indent == old(indent) && out.text == before + Lines(o.children[..x], indent)
      {
        MoreLines(o.children[..x], o.children[x], indent);
        assert o.children[..x] + [o.children[x]] == o.children[..x + 1];
        ExportObject(o.children[x]);
      }
      assert o.children[..|o.children|] == o.children;
    }
  }

  lemma AllProps(before: string, p1: seq<Prop>, p2: seq<Prop>, p3: seq<Prop>, p4: seq<Prop>, p5: seq<Prop>,
      p6: seq<Prop>, p7: seq<Prop>)
    ensures before + PropsText(p1 + p2 + p3 + p4 + p5 + p6 + p7)
            == before + PropsText(p1) + PropsText(p2) + PropsText(p3) + PropsText(p4) + PropsText(p5) + PropsText(p6)
                + PropsText(p7)
  {
    hide PropsText;
    PropsTextAppend(p1, p2);
    PropsTextAppend(p1 + p2, p3);
    PropsTextAppend(p1 + p2 + p3, p4);
    PropsTextAppend(p1 + p2 + p3 + p4, p5);
    PropsTextAppend(p1 + p2 + p3 + p4 + p5, p6);
    PropsTextAppend(p1 + p2 + p3 + p4 + p5 + p6, p7);
  }

  lemma InfoJoined(before: string, indent: string, p: string, q: string)
    ensures before + (indent + "<info" + (p + q) + "/>\n") == before + (indent + "<" + "info") + p + q + "/>\n" + ""
  {
  }

  lemma NoInfoLines(indent: nat)
    ensures InfoLines([], indent) == ""
  {
  }

  lemma {:induction false} MoreInfoLines(infos: seq<Info>, i: Info, indent: nat)
    ensures InfoLines(infos + [i], indent) == InfoLines(infos, indent) + InfoLine(i, indent)
  {
    hide InfoLine;
    if infos == [] {
      assert infos + [i] == [i] && [i][1..] == [];
      assert InfoLine(i, indent) + "" == InfoLine(i, indent);
    } else {
      MoreInfoLines(infos[1..], i, indent);
      assert (infos + [i])[1..] == infos[1..] + [i];
    }
  }

  lemma NoLines(indent: nat)
    ensures Lines([], indent) == ""
  {
  }

  lemma {:induction false} MoreLines(children: seq<XmlObject>, o: XmlObject, indent: nat)
    ensures Lines(children + [o], indent) == Lines(children, indent) + Line(o, indent)
    decreases |children|
  {
    hide Line;
    if children == [] {
      assert children + [o] == [o] && [o][1..] == [];
      assert Line(o, indent) + "" == Line(o, indent);
    } else {
      MoreLines(children[1..], o, indent);
      assert (children + [o])[1..] == children[1..] + [o];
    }
  }

  lemma LineJoined(before: string, o: XmlObject, indent: nat)
    ensures
      var props, infos, lines := PropsText(Props(o)), InfoLines(o.infos, indent + 2), Lines(o.children, indent + 2);
      before + Line(o, indent)
      == if o.infos == [] && o.children == []
         then before + (Spaces(indent) + "<" + "object") + props + "/>\n" + infos + lines + ""
         else
           before + (Spaces(indent) + "<" + "object") + props + ">\n" + infos + lines
           + (Spaces(indent) + "</" + "object" + ">\n")
  {
    hide PropsText, Props, Spaces, InfoLines, Lines;
    NoInfoLines(indent + 2);
    NoLines(indent + 2);
    var props, infos, lines := PropsText(Props(o)), InfoLines(o.infos, indent + 2), Lines(o.children, indent + 2);
    ClosedJoined(before, Spaces(indent), props);
    OpenJoined(before, Spaces(indent), props, infos, lines);
  }

  lemma ClosedJoined(before: string, indent: string, props: string)
    ensures before + (indent + ("<object" + props + "/>") + "\n") ==
        before + (indent + "<" + "object") + props + "/>\n" + "" + "" + ""
  {
  }

  lemma OpenJoined(before: string, indent: string, props: string, infos: string, lines: string)
    ensures before + (indent + ("<object" + props + (">\n" + infos + lines + indent + "</object>")) + "\n")
            == before + (indent + "<" + "object") + props + ">\n" + infos + lines + (indent + "</" + "object" + ">\n")
  {
  }

  /** `hwloc___nolibxml_prepare_export`: the size that the whole document takes. */
  method PrepareExport(o: XmlObject, buflen: nat) returns (size: nat, out: Output)
    ensures fresh(out) && fresh(out.buffer) && out.Valid() && out.buffer.Length == buflen
    ensures out.text == Document(o) && size == |Document(o)| + 1
  {
    hide Line, Spaces, HEADER, Document, Fitting;
    out := new Output(buflen);
    var xml := new XmlOutput(out);
    out.Put(HEADER);
    xml.NewChild("topology");
    xml.EndProps(1);
    xml.ExportObject(o);
    xml.EndChild("topology", 1);
    size := out.written + 1;
    DocumentJoined(o);
  }

  lemma DocumentJoined(o: XmlObject)
    ensures "" + HEADER + (Spaces(0) + "<" + "topology") + ">\n" + Line(o, 2)
        + (Spaces(0) + "</" + "topology" + ">\n") == Document(o)
  {
    hide Line;
    assert Spaces(0) == "";
    assert "" + HEADER == HEADER;
    assert HEADER + ("" + "<" + "topology") + ">\n" == HEADER + "<topology>\n";
    assert "" + "</" + "topology" + ">\n" == "</topology>\n";
  }

  const BUFLEN := 16384

  /** `hwloc__nolibxml_prepare_export`: a second pass when the first one did not fit. Either way the
      buffer holds the whole document and a NUL. */
  method Export(o: XmlObject) returns (buffer: array<char>, size: nat)
    ensures fresh(buffer) && size == |Document(o)| + 1 <= buffer.Length
    ensures buffer[..size - 1] == Document(o) && buffer[size - 1] == NUL
  {
    hide Document;
    var out;
    size, out := PrepareExport(o, BUFLEN);
    if size > BUFLEN {
      var again;
      again, out := PrepareExport(o, size);
    }
    buffer := out.buffer;
    assert out.pos == size - 1;
  }
}
