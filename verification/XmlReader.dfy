/** The XML reader without libxml (src/topology-xml.c), which works in the buffer: it ends names,
    values and tags with NULs, and hands cursors from parents to children and back. It reads what
    the parsing functions say, for any text. */
module XmlReader {
  import opened Bitmap
  import opened Collections
  import opened TextBuffer
  import opened XmlObjects
  import opened XmlParser

  // ---- Strings in the buffer ----

  /** The string that starts at `p`. */
  ghost predicate Holds(buffer: array<char>, p: nat, text: string)
    reads buffer
  {
    && p + |text| < buffer.Length && buffer[p..p + |text|] == text && buffer[p + |text|] == NUL && NUL !in text
  }

  lemma HoldsAt(buffer: array<char>, p: nat, text: string, k: nat)
    requires Holds(buffer, p, text) && k <= |text|
    ensures p + k < buffer.Length && buffer[p + k] == if k < |text| then text[k] else NUL
    ensures k < |text| ==> text[k] != NUL
    ensures Holds(buffer, p + k, text[k..])
  {
    if k < |text| {
      assert buffer[p..p + |text|][k] == buffer[p + k];
      assert text[k] in text;
    }
    assert buffer[p + k..p + |text|] == buffer[p..p + |text|][k..];
  }

  /** `strspn(buffer, " \t\n")`. */
  method IgnoreSpaces(buffer: array<char>, p: nat, ghost text: string) returns (q: nat)
    requires Holds(buffer, p, text)
    ensures q == p + SpaceCount(text) && Holds(buffer, q, SkipSpaces(text))
  {
    hide Holds;
    q := p;
    HoldsAt(buffer, p, text, 0);
    while IsSpace(buffer[q])
      invariant p <= q <= p + |text| && q < buffer.Length
      invariant SpaceCount(text) == (q - p) + SpaceCount(text[q - p..])
      invariant buffer[q] == if q - p < |text| then text[q - p] else NUL
      decreases |text| - (q - p)
    {
      HoldsAt(buffer, p, text, q - p + 1);
      assert text[q - p..][1..] == text[q - p + 1..];
      q := q + 1;
    }
    HoldsAt(buffer, p, text, q - p);
  }

  /** `strspn` for the characters of names. */
  method NameEnd(buffer: array<char>, p: nat, ghost text: string) returns (n: nat)
    requires Holds(buffer, p, text)
    ensures n == NameLength(text)
  {
    hide Holds;
    n := 0;
    HoldsAt(buffer, p, text, 0);
    while IsNameChar(buffer[p + n])
      invariant n <= |text| && p + n < buffer.Length
      invariant NameLength(text) == n + NameLength(text[n..])
      invariant buffer[p + n] == if n < |text| then text[n] else NUL
      decreases |text| - n
    {
      HoldsAt(buffer, p, text, n + 1);
      assert text[n..][1..] == text[n + 1..];
      n := n + 1;
    }
  }

  /** `strchr(buffer, c)`: where it is, or -1. */
  method Strchr(buffer: array<char>, p: nat, c: char, ghost text: string) returns (r: int)
    requires Holds(buffer, p, text) && c != NUL
    ensures r == if Find(text, c) < |text| then p + Find(text, c) else -1
  {
    hide Holds;
    var n := 0;
    HoldsAt(buffer, p, text, 0);
    while buffer[p + n] != NUL
      invariant 0 <= n <= |text| && p + n < buffer.Length
      invariant Find(text, c) == n + Find(text[n..], c)
      invariant buffer[p + n] == if n < |text| then text[n] else NUL
      decreases |text| - n
    {
      HoldsAt(buffer, p, text, n);
      HoldsAt(buffer, p, text, n + 1);
      if buffer[p + n] == c {
        return p + n;
      }
      assert text[n..][1..] == text[n + 1..];
      n := n + 1;
    }
    HoldsAt(buffer, p, text, n);
    r := -1;
  }

  /** The string at `p`, as `strdup` and `strcmp` see it. */
  method GetString(buffer: array<char>, p: nat, ghost text: string) returns (r: string)
    requires Holds(buffer, p, text)
    ensures r == text
  {
    hide Holds;
    r := "";
    var n := 0;
    HoldsAt(buffer, p, text, 0);
    while buffer[p + n] != NUL
      invariant 0 <= n <= |text| && p + n < buffer.Length && r == text[..n]
      invariant buffer[p + n] == if n < |text| then text[n] else NUL
      decreases |text| - n
    {
      HoldsAt(buffer, p, text, n);
      HoldsAt(buffer, p, text, n + 1);
      r := r + [buffer[p + n]];
      n := n + 1;
    }
    HoldsAt(buffer, p, text, n);
  }

  /** `hwloc__xml_import_state_s`: cursors into the buffer. */
  class State {
    const parent: State?
    var tagbuffer: nat
    var attrbuffer: nat
    var tagname: nat
    var closed: bool

    constructor (parent: State?)
      ensures this.parent == parent && !closed
    {
      this.parent := parent;
      tagbuffer, attrbuffer, tagname, closed := 0, 0, 0, false;
    }
  }

  /** A state that is at the start of a tag: its name, its attributes, and what follows it. */
  ghost predicate AtTag(buffer: array<char>, state: State, tag: Tag)
    reads buffer, state
  {
    && tag.Child? && state.closed == tag.closed
    && Holds(buffer, state.tagname, tag.name) && state.tagname + |tag.name| < state.attrbuffer
    && Holds(buffer, state.attrbuffer, tag.attrs) && state.attrbuffer + |tag.attrs| < state.tagbuffer
    && Holds(buffer, state.tagbuffer, tag.rest)
  }

  /** Outside the string at `p`, the buffer has not changed, nor has the NUL at its end. */
  ghost predicate Kept(before: seq<char>, after: seq<char>, p: nat, text: string) {
    |after| == |before| && forall i :: 0 <= i < |before| && (i < p || i >= p + |text|) ==> after[i] == before[i]
  }

  /** The loop that looks for the end of a value. */
  method ValueEnd(buffer: array<char>, p: nat, ghost text: string) returns (ok: bool, len: nat)
    requires Holds(buffer, p, text) && text != ""
    ensures ok <==> ValueLength(text) < |text| && text[ValueLength(text)] == '\"'
    ensures ok ==> len == ValueLength(text)
  {
    hide Holds, ValueLength;
    len := 0;
    HoldsAt(buffer, p, text, 0);
    assert text[0..] == text;
    while buffer[p + len] != '\"'
      invariant len < |text| && p + len < buffer.Length
      invariant ValueLength(text) == len + ValueLength(text[len..])
      invariant buffer[p + len] == text[len]
      decreases |text| - len
    {
      ValueStep(text, len);
      if buffer[p + len] == '&' {
        return false, len;
      }
      HoldsAt(buffer, p, text, len + 1);
      len := len + 1;
      if buffer[p + len] == NUL {
        ValueStep(text, len);
        return false, len;
      }
    }
    ValueStep(text, len);
    ok := true;
  }

  lemma ValueStep(text: string, len: nat)
    requires len <= |text|
    ensures ValueLength(text[len..])
            == if len < |text| && text[len] != '\"' && text[len] != '&' then 1 + ValueLength(text[len + 1..]) else 0
  {
    if len < |text| {
      assert text[len..][1..] == text[len + 1..];
    }
  }

  /** What the buffer says about a string, as facts about its cells. */
  ghost predicate SeqHolds(cells: seq<char>, p: nat, text: string) {
    p + |text| < |cells| && cells[p..p + |text|] == text && cells[p + |text|] == NUL && NUL !in text
  }

  lemma HoldsSeq(buffer: array<char>, p: nat, text: string)
    ensures Holds(buffer, p, text) <==> SeqHolds(buffer[..], p, text)
  {
    if p + |text| < buffer.Length {
      assert buffer[p..p + |text|] == buffer[..][p..p + |text|];
    }
  }

  /** A string that is apart from what was written. */
  lemma SeqStays(before: seq<char>, after: seq<char>, p: nat, text: string)
    requires SeqHolds(before, p, text) && |after| == |before|
    requires forall i :: p <= i <= p + |text| ==> after[i] == before[i]
    ensures SeqHolds(after, p, text)
  {
    assert after[p..p + |text|] == before[p..p + |text|];
  }

  lemma SeqEnds(before: seq<char>, p: nat, text: string, k: nat)
    requires SeqHolds(before, p, text) && k < |text|
    ensures SeqHolds(before[p + k := NUL], p, text[..k]) && SeqHolds(before[p + k := NUL], p + k + 1, text[k + 1..])
  {
    var after := before[p + k := NUL];
    assert after[p..p + k] == before[p..p + |text|][..k];
    assert after[p + k + 1..p + |text|] == before[p..p + |text|][k + 1..];
  }

  /** Write a NUL at `p + k`: two strings. */
  method EndAt(buffer: array<char>, p: nat, k: nat, ghost text: string)
    requires Holds(buffer, p, text) && k < |text|
    modifies buffer
    ensures buffer[..] == old(buffer[..])[p + k := NUL]
    ensures Holds(buffer, p, text[..k]) && Holds(buffer, p + k + 1, text[k + 1..])
  {
    hide Holds, SeqHolds;
    HoldsSeq(buffer, p, text);
    HoldsAt(buffer, p, text, k);
    SeqEnds(buffer[..], p, text, k);
    buffer[p + k] := NUL;
    HoldsSeq(buffer, p, text[..k]);
    HoldsSeq(buffer, p + k + 1, text[k + 1..]);
  }

  lemma KeptString(before: seq<char>, buffer: array<char>, p: nat, text: string, from: nat, changed: string)
    requires SeqHolds(before, p, text) && Kept(before, buffer[..], from, changed)
    requires p + |text| < from || from + |changed| <= p
    ensures Holds(buffer, p, text)
  {
    SeqStays(before, buffer[..], p, text);
    HoldsSeq(buffer, p, text);
  }

  /** The name of an attribute, up to its `="`. */
  method AttrName(buffer: array<char>, p: nat, ghost text: string) returns (ok: bool, q: nat, n: nat)
    requires Holds(buffer, p, text)
    modifies buffer
    ensures Kept(old(buffer[..]), buffer[..], p, text)
    ensures
      var b := SkipSpaces(text);
      && q == p + SpaceCount(text) && n == NameLength(b)
      && (ok <==> n + 1 < |b| && b[n] == '=' && b[n + 1] == '\"')
      && (ok ==> Holds(buffer, q, b[..n]) && Holds(buffer, q + n + 2, b[n + 2..]))
  {
    hide Holds, NameLength, SpaceCount;
    q := IgnoreSpaces(buffer, p, text);
    ghost var b := SkipSpaces(text);
    n := NameEnd(buffer, q, b);
    HoldsAt(buffer, q, b, n);
    if buffer[q + n] != '=' {
      return false, q, n;
    }
    HoldsAt(buffer, q, b, n + 1);
    if buffer[q + n + 1] != '\"' {
      return false, q, n;
    }
    EndAt(buffer, q, n, b);
    HoldsAt(buffer, q + n + 1, b[n + 1..], 1);
    assert b[n + 1..][1..] == b[n + 2..];
    ok := true;
  }

  /** Its value, up to the closing quote. */
  method AttrValue(buffer: array<char>, p: nat, ghost value: string) returns (ok: bool, len: nat)
    requires Holds(buffer, p, value) && value != ""
    modifies buffer
    ensures Kept(old(buffer[..]), buffer[..], p, value)
    ensures ok <==> ValueLength(value) < |value| && value[ValueLength(value)] == '\"'
    ensures ok ==>
        len == ValueLength(value) && Holds(buffer, p, value[..len])
        && Holds(buffer, p + len + 1, value[len + 1..])
  {
    hide Holds, ValueLength;
    ok, len := ValueEnd(buffer, p, value);
    if ok {
      EndAt(buffer, p, len, value);
    }
  }

  /** `hwloc__xml_import_next_attr`. */
  method NextAttribute(buffer: array<char>, state: State, ghost text: string)
      returns (ok: bool, namep: nat, valuep: nat)
    requires Holds(buffer, state.attrbuffer, text) && !NextAttr(text).Overrun?
    modifies buffer, state`attrbuffer
    ensures Kept(old(buffer[..]), buffer[..], old(state.attrbuffer), text)
    ensures ok <==> NextAttr(text).Attr?
    ensures ok ==>
      var r := NextAttr(text);
      && Holds(buffer, namep, r.name) && Holds(buffer, valuep, r.value) && Holds(buffer, state.attrbuffer, r.rest)
      && old(state.attrbuffer) <= namep && namep + |r.name| < valuep && valuep + |r.value| < state.attrbuffer
      && state.attrbuffer + |r.rest| == old(state.attrbuffer) + |text|
  {
    hide Holds, NameLength, SpaceCount, ValueLength, SeqHolds;
    var n, len;
    ok, namep, n := AttrName(buffer, state.attrbuffer, text);
    ghost var b := SkipSpaces(text);
    valuep := namep + n + 2;
    if !ok {
      return;
    }
    ghost var name, value := b[..n], b[n + 2..];
    HoldsSeq(buffer, namep, name);
    ghost var before := buffer[..];
    ok, len := AttrValue(buffer, valuep, value);
    KeptString(before, buffer, namep, name, valuep, value);
    if ok {
      state.attrbuffer := IgnoreSpaces(buffer, valuep + len + 1, value[len + 1..]);
    }
  }

  /** Find a tag where a child may be: 1 for a child, 0 for none, -1 for an error; `aborted` when the
      assertion that a tag has something after its name fails. */
  method FindChild(buffer: array<char>, state: State, ghost text: string)
      returns (ret: int, aborted: bool, child: State)
    requires Holds(buffer, state.tagbuffer, text)
    modifies buffer
    ensures fresh(child) && child.parent == state
    ensures Kept(old(buffer[..]), buffer[..], state.tagbuffer, text)
    ensures -1 <= ret <= 1 && (state.closed ==> ret == 0 && !aborted)
    ensures !state.closed ==> aborted == OpenTag(text).Aborted?
    ensures !state.closed ==> (ret == 1 <==> OpenTag(text).Child?) && (ret == 0 <==> OpenTag(text).NoChild?)
    ensures ret != 1 && !aborted && (state.closed || OpenTag(text).NoChild?) ==> buffer[..] == old(buffer[..])
    ensures ret == 1 ==> AtTag(buffer, child, OpenTag(text))
    ensures ret == 1 ==>
        state.tagbuffer < child.tagname
        && child.tagbuffer + |OpenTag(text).rest| == state.tagbuffer + |text|
  {
    hide Holds, SpaceCount, TagAfter, AtTag, IsSpace;
    ret, aborted := 0, false;
    child := new State(state);
    if state.closed {
      return;
    }
    var p := IgnoreSpaces(buffer, state.tagbuffer, text);
    ghost var b := SkipSpaces(text);
    HoldsAt(buffer, p, b, 0);
    if buffer[p] != '<' {
      ret := -1;
      return;
    }
    HoldsAt(buffer, p, b, 1);
    ret, aborted := FindTag(buffer, child, p + 1, b[1..]);
  }

  /** What comes after a `<`. */
  method FindTag(buffer: array<char>, child: State, p: nat, ghost tag: string) returns (ret: int, aborted: bool)
    requires Holds(buffer, p, tag) && p > 0 && buffer[p - 1] == '<'
    modifies buffer, child
    ensures Kept(old(buffer[..]), buffer[..], p, tag)
    ensures
      var r := TagAfter(tag);
      && -1 <= ret <= 1 && aborted == r.Aborted? && (ret == 1 <==> r.Child?) && (ret == 0 <==> r.NoChild?)
      && (ret == 0 ==> buffer[..] == old(buffer[..]))
      && (ret == 1 ==> AtTag(buffer, child, r) && child.tagname == p && child.tagbuffer + |r.rest| == p + |tag|)
  {
    hide Holds, TagParts, AtTag;
    ret, aborted := 0, false;
    HoldsAt(buffer, p, tag, 0);
    if buffer[p] == '/' {
      return;
    }
    var end := Strchr(buffer, p, '>', tag);
    if end == -1 {
      ret := -1;
      return;
    }
    ret, aborted := MarkTag(buffer, child, p, end - p, tag);
  }

  /** The tag that ends with the `>` at `p + end`. */
  method MarkTag(buffer: array<char>, child: State, p: nat, end: nat, ghost tag: string)
      returns (ret: int, aborted: bool)
    requires Holds(buffer, p, tag) && end == Find(tag, '>') < |tag| && p > 0 && buffer[p - 1] == '<'
    modifies buffer, child
    ensures Kept(old(buffer[..]), buffer[..], p, tag)
    ensures
      var closed := end > 0 && tag[end - 1] == '/';
      var r := TagParts(tag[..if closed then end - 1 else end], closed, tag[end + 1..]);
      && aborted == r.Aborted? && (ret == 1 <==> r.Child?) && (ret == 1 || ret == -1)
      && (ret == 1 ==> AtTag(buffer, child, r) && child.tagname == p && child.tagbuffer == p + end + 1)
  {
    hide Holds, NameLength;
    HoldsAt(buffer, p, tag, end);
    EndAt(buffer, p, end, tag);
    assert buffer[p - 1] == buffer[..][p - 1];
    child.tagname := p;
    child.tagbuffer := p + end + 1;
    ghost var inside, rest := tag[..end], tag[end + 1..];
    child.closed := ClosedMark(buffer, p, end, tag);
    if child.closed {
      HoldsSeq(buffer, p + end + 1, rest);
      ghost var before := buffer[..];
      EndAt(buffer, p, end - 1, inside);
      KeptString(before, buffer, p + end + 1, rest, p, inside);
      inside := inside[..end - 1];
      assert inside == tag[..end - 1];
    }
    ret, aborted := MarkName(buffer, child, p, inside, rest);
  }

  /** `end[-1] == '/'`. */
  method ClosedMark(buffer: array<char>, p: nat, end: nat, ghost tag: string) returns (closed: bool)
    requires end < |tag| && Holds(buffer, p, tag[..end]) && p > 0
    requires end == 0 ==> buffer[p - 1] == '<'
    ensures closed == (end > 0 && tag[end - 1] == '/')
  {
    hide Holds;
    HoldsAt(buffer, p, tag[..end], if end > 0 then end - 1 else 0);
    closed := buffer[p + end - 1] == '/';
  }

  /** The name of the tag and the start of its attributes. */
  method MarkName(buffer: array<char>, child: State, p: nat, ghost inside: string, ghost rest: string)
      returns (ret: int, aborted: bool)
    requires Holds(buffer, p, inside) && child.tagname == p && p + |inside| < child.tagbuffer
        && Holds(buffer, child.tagbuffer, rest)
    modifies buffer, child`attrbuffer
    ensures Kept(old(buffer[..]), buffer[..], p, inside)
    ensures
      var r := TagParts(inside, child.closed, rest);
      && aborted == r.Aborted? && (ret == 1 <==> r.Child?) && (ret == 1 || ret == -1)
      && (ret == 1 ==> AtTag(buffer, child, r))
  {
    hide Holds, NameLength, SeqHolds;
    var n := NameEnd(buffer, p, inside);
    HoldsAt(buffer, p, inside, n);
    if buffer[p + n] == NUL {
      return -1, true;
    }
    if buffer[p + n] != ' ' {
      return -1, false;
    }
    HoldsSeq(buffer, child.tagbuffer, rest);
    ghost var before := buffer[..];
    EndAt(buffer, p, n, inside);
    KeptString(before, buffer, child.tagbuffer, rest, p, inside);
    child.attrbuffer := p + n + 1;
    return 1, false;
  }

  /** `hwloc__xml_import_close_tag`. */
  method CloseTag(buffer: array<char>, state: State, ghost text: string, ghost name: string) returns (ret: int)
    requires Holds(buffer, state.tagbuffer, text) && Holds(buffer, state.tagname, name)
    requires state.tagname + |name| < state.tagbuffer
    modifies buffer, state`tagbuffer
    ensures Kept(old(buffer[..]), buffer[..], old(state.tagbuffer), text)
    ensures state.closed ==> ret == 0 && state.tagbuffer == old(state.tagbuffer) && Holds(buffer, state.tagbuffer, text)
    ensures !state.closed ==>
      var r := XmlParser.CloseTag(text, name);
      && (ret == 0 <==> r.Some?) && (ret == 0 || ret == -1)
      && (ret == 0 ==>
          Holds(buffer, state.tagbuffer, r.value) && state.tagbuffer + |r.value| == old(state.tagbuffer) + |text|)
  {
    hide Holds, SpaceCount, SeqHolds;
    if state.closed {
      return 0;
    }
    var p := IgnoreSpaces(buffer, state.tagbuffer, text);
    ghost var b := SkipSpaces(text);
    HoldsAt(buffer, p, b, 0);
    if buffer[p] != '<' {
      return -1;
    }
    p := p + 1;
    ghost var tag := b[1..];
    HoldsAt(buffer, p - 1, b, 1);
    var end := Strchr(buffer, p, '>', tag);
    if end == -1 {
      return -1;
    }
    ret := MatchEnd(buffer, state, p, end - p, tag, name);
  }

  /** The closing tag ends at `p + end`; it must be a slash and the name. */
  method MatchEnd(buffer: array<char>, state: State, p: nat, end: nat, ghost tag: string, ghost name: string)
      returns (ret: int)
    requires Holds(buffer, p, tag) && end < |tag|
    requires Holds(buffer, state.tagname, name) && state.tagname + |name| < p
    modifies buffer, state`tagbuffer
    ensures Kept(old(buffer[..]), buffer[..], p, tag)
    ensures ret == if end == 0 || tag[0] != '/' || tag[1..end] != name then -1 else 0
    ensures state.tagbuffer == p + end + 1 && Holds(buffer, state.tagbuffer, tag[end + 1..])
  {
    hide Holds, SeqHolds;
    HoldsSeq(buffer, state.tagname, name);
    ghost var before := buffer[..];
    EndAt(buffer, p, end, tag);
    KeptString(before, buffer, state.tagname, name, p, tag);
    state.tagbuffer := p + end + 1;
    HoldsAt(buffer, p, tag[..end], 0);
    if buffer[p] != '/' {
      return -1;
    }
    HoldsAt(buffer, p, tag[..end], 1);
    assert tag[..end][1..] == tag[1..end];
    var found := GetString(buffer, p + 1, tag[1..end]);
    var wanted := GetString(buffer, state.tagname, name);
    ret := if found != wanted then -1 else 0;
  }

  /** `hwloc__xml_import_close_child`: the cursor goes back to the parent. */
  method CloseChild(state: State)
    requires state.parent != null
    modifies state.parent`tagbuffer
    ensures state.parent.tagbuffer == state.tagbuffer
  {
    state.parent.tagbuffer := state.tagbuffer;
  }

  // ---- Infos and objects ----

  datatype Status = Success | Error | AssertionFailed

  ghost predicate Agrees(p: Parsed, status: Status, o: XmlObject, rest: string) {
    match p
    case Done(o', rest') => status == Success && o == o' && rest == rest'
    case Failed => status == Error
    case Abort => status == AssertionFailed
    case PastTag => true
  }

  /** What of a state at a tag stays while its attributes are read. */
  ghost predicate Reading(buffer: array<char>, state: State, tag: Tag, at: nat, attrs: string)
    reads buffer, state
  {
    && tag.Child? && state.closed == tag.closed
    && Holds(buffer, state.tagname, tag.name) && state.tagname + |tag.name| < at
    && at <= state.attrbuffer && state.attrbuffer + |attrs| < state.tagbuffer
    && Holds(buffer, state.attrbuffer, attrs)
    && Holds(buffer, state.tagbuffer, tag.rest)
  }

  /** One attribute, with the rest of the state left as it was. */
  method ReadAttribute(buffer: array<char>, state: State, ghost tag: Tag, ghost at: nat, ghost attrs: string)
    returns (ok: bool, name: string, value: string)
    requires Reading(buffer, state, tag, at, attrs) && !NextAttr(attrs).Overrun?
    modifies buffer, state`attrbuffer
    ensures forall i :: 0 <= i < buffer.Length && (i < at || i >= state.tagbuffer) ==> buffer[i] == old(buffer[i])
    ensures ok <==> NextAttr(attrs).Attr?
    ensures ok ==>
        name == NextAttr(attrs).name && value == NextAttr(attrs).value
        && Reading(buffer, state, tag, at, NextAttr(attrs).rest)
    ensures Holds(buffer, state.tagname, tag.name) && Holds(buffer, state.tagbuffer, tag.rest)
  {
    hide Holds, SeqHolds, NextAttr;
    name, value := "", "";
    HoldsSeq(buffer, state.tagname, tag.name);
    HoldsSeq(buffer, state.tagbuffer, tag.rest);
    ghost var before, from := buffer[..], state.attrbuffer;
    var namep, valuep;
    ok, namep, valuep := NextAttribute(buffer, state, attrs);
    KeptString(before, buffer, state.tagname, tag.name, from, attrs);
    KeptString(before, buffer, state.tagbuffer, tag.rest, from, attrs);
    assert forall i :: 0 <= i < buffer.Length ==> buffer[i] == buffer[..][i];
    if ok {
      name := GetString(buffer, namep, NextAttr(attrs).name);
      value := GetString(buffer, valuep, NextAttr(attrs).value);
    }
  }

  lemma AttrsStep(text: string)
    requires !AllAttrs(text).Overruns?
    ensures !NextAttr(text).Overrun?
    ensures NextAttr(text).NoAttr? ==> AllAttrs(text) == Attrs([])
    ensures NextAttr(text).Attr? ==>
      var r := NextAttr(text);
      !AllAttrs(r.rest).Overruns? && AllAttrs(text) == Attrs([(r.name, r.value)] + AllAttrs(r.rest).props)
  {
    hide NextAttr;
  }

  /** `hwloc__xml_import_info`. */
  method ImportInfo(buffer: array<char>, o: XmlObject, state: State, ghost tag: Tag)
      returns (status: Status, r: XmlObject, ghost rest: string)
    requires AtTag(buffer, state, tag) && !ParseInfo(o, tag).PastTag?
    modifies buffer, state`attrbuffer, state`tagbuffer
    ensures Agrees(ParseInfo(o, tag), status, r, rest)
    ensures forall i :: 0 <= i < old(state.attrbuffer) && i < buffer.Length ==> buffer[i] == old(buffer[i])
    ensures status == Success ==> Holds(buffer, state.tagbuffer, rest) && old(state.tagbuffer) <= state.tagbuffer
    ensures status == Success ==> state.tagbuffer + |rest| == old(state.tagbuffer) + |tag.rest|
  {
    hide Holds, AllAttrs, NextAttr, XmlParser.CloseTag;
    r, rest := o, "";
    var name: Option<string>, value: Option<string> := None, None;
    ghost var attrs, at := tag.attrs, state.attrbuffer;
    AttrsStep(attrs);
    while true
      invariant Reading(buffer, state, tag, at, attrs) && !AllAttrs(attrs).Overruns?
      invariant forall i :: 0 <= i < buffer.Length && i < at ==> buffer[i] == old(buffer[i])
      invariant InfoOf(AllAttrs(tag.attrs).props, None, None) == InfoOf(AllAttrs(attrs).props, name, value)
      invariant state.tagbuffer == old(state.tagbuffer)
      decreases |attrs|
    {
      AttrsStep(attrs);
      var ok, attrname, attrvalue := ReadAttribute(buffer, state, tag, at, attrs);
      if !ok {
        break;
      }
      ghost var next := NextAttr(attrs);
      assert AllAttrs(attrs).props[1..] == AllAttrs(next.rest).props;
      if attrname == "name" {
        name := Some(attrvalue);
      } else if attrname == "value" {
        value := Some(attrvalue);
      } else {
        status := Error;
        return;
      }
      attrs := next.rest;
    }
    r := AddInfo(o, (name, value));
    var ret := CloseTag(buffer, state, tag.rest, tag.name);
    status := if ret == 0 then Success else Error;
    rest := if tag.closed then tag.rest else if ret == 0 then XmlParser.CloseTag(tag.rest, tag.name).value else "";
  }

  /** An attribute of an object. */
  method ImportAttr(o: XmlObject, name: string, value: string) returns (ok: bool, r: XmlObject)
    ensures ok == SetAttr(o, (name, value)).Some?
    ensures ok ==> r == SetAttr(o, (name, value)).value
  {
    var more := SetAttr(o, (name, value));
    ok := more.Some?;
    r := if ok then more.value else o;
  }

  /** What is left to do for an object whose attributes have been read. */
  function ParseBody(o: XmlObject, tag: Tag, text: string): Parsed
    requires tag.Child?
  {
    if tag.closed then Done(o, text) else ParseChildren(o, tag.name, text)
  }

  lemma SetAttrsStep(o: XmlObject, props: seq<Prop>)
    requires props != []
    ensures SetAttrs(o, props) ==
        var more := SetAttr(o, props[0]); if more.Some? then SetAttrs(more.value, props[1..]) else None
  {
    hide SetAttr;
  }

  /** The loop over the attributes of an object. */
  method ImportAttrs(buffer: array<char>, o: XmlObject, state: State, ghost tag: Tag) returns (ok: bool, r: XmlObject)
    requires AtTag(buffer, state, tag) && !AllAttrs(tag.attrs).Overruns?
    modifies buffer, state`attrbuffer
    ensures ok == SetAttrs(o, AllAttrs(tag.attrs).props).Some?
    ensures ok ==> r == SetAttrs(o, AllAttrs(tag.attrs).props).value
    ensures forall i :: 0 <= i < buffer.Length && (i < old(state.attrbuffer) || i >= state.tagbuffer) ==>
        buffer[i] == old(buffer[i])
    ensures Holds(buffer, state.tagname, tag.name) && Holds(buffer, state.tagbuffer, tag.rest)
  {
    hide Holds, AllAttrs, NextAttr, SetAttr, SetAttrs;
    r := o;
    ghost var attrs, at := tag.attrs, state.attrbuffer;
    while true
      invariant Reading(buffer, state, tag, at, attrs) && !AllAttrs(attrs).Overruns?
      invariant forall i :: 0 <= i < buffer.Length && (i < at || i >= state.tagbuffer) ==> buffer[i] == old(buffer[i])
      invariant SetAttrs(o, AllAttrs(tag.attrs).props) == SetAttrs(r, AllAttrs(attrs).props)
      invariant state.tagbuffer == old(state.tagbuffer)
      decreases |attrs|
    {
      AttrsStep(attrs);
      var attrname, attrvalue;
      ok, attrname, attrvalue := ReadAttribute(buffer, state, tag, at, attrs);
      if !ok {
        break;
      }
      ghost var next := NextAttr(attrs);
      SetAttrsStep(r, AllAttrs(attrs).props);
      assert AllAttrs(attrs).props[1..] == AllAttrs(next.rest).props;
      ok, r := ImportAttr(r, attrname, attrvalue);
      if !ok {
        return;
      }
      attrs := next.rest;
    }
    NothingToSet(r);
    ok := true;
  }

  lemma NothingToSet(o: XmlObject)
    ensures SetAttrs(o, []) == Some(o)
  {
  }

  /** `hwloc__xml_import_object`: whatever the text is, the outcome is what the parsing functions
      say, nothing before the attributes is written, and after success the cursor is at the rest. */
  method ImportObject(buffer: array<char>, o: XmlObject, state: State, ghost tag: Tag)
    returns (status: Status, r: XmlObject, ghost rest: string)
    requires AtTag(buffer, state, tag) && !ParseObject(o, tag).PastTag?
    modifies buffer, state`attrbuffer, state`tagbuffer
    ensures Agrees(ParseObject(o, tag), status, r, rest)
    ensures forall i :: 0 <= i < old(state.attrbuffer) && i < buffer.Length ==> buffer[i] == old(buffer[i])
    ensures status == Success ==> Holds(buffer, state.tagbuffer, rest) && old(state.tagbuffer) <= state.tagbuffer
    ensures status == Success ==> state.tagbuffer + |rest| == old(state.tagbuffer) + |tag.rest|
    decreases |tag.rest|, 1
  {
    hide Holds, AllAttrs, SetAttrs, ParseChildren;
    rest := "";
    var ok;
    ok, r := ImportAttrs(buffer, o, state, tag);
    if !ok {
      status := Error;
      return;
    }
    status, r, rest := ImportChildren(buffer, r, state, tag);
  }

  lemma KeptBelow(before: seq<char>, buffer: array<char>, p: nat, text: string, from: nat)
    requires SeqHolds(before, p, text) && |before| == buffer.Length && p + |text| < from
    requires forall i :: 0 <= i < from && i < buffer.Length ==> buffer[i] == before[i]
    ensures Holds(buffer, p, text)
  {
    SeqStays(before, buffer[..], p, text);
    HoldsSeq(buffer, p, text);
  }

  /** Looking for the next child leaves the name of the parent's tag alone. */
  method FindNext(buffer: array<char>, state: State, ghost name: string, ghost text: string)
      returns (ret: int, aborted: bool, child: State)
    requires Holds(buffer, state.tagname, name) && Holds(buffer, state.tagbuffer, text)
    requires state.tagname + |name| < state.tagbuffer
    modifies buffer
    ensures fresh(child) && child.parent == state
    ensures Holds(buffer, state.tagname, name)
    ensures forall i :: 0 <= i < state.tagbuffer && i < buffer.Length ==> buffer[i] == old(buffer[i])
    ensures state.closed ==> ret == 0 && !aborted
    ensures !state.closed ==> aborted == OpenTag(text).Aborted?
    ensures !state.closed && !aborted ==>
        -1 <= ret <= 1
        && (ret == 1 <==> OpenTag(text).Child?) && (ret == 0 <==> OpenTag(text).NoChild?)
    ensures ret == 0 && !aborted ==> Holds(buffer, state.tagbuffer, text)
    ensures ret == 1 ==> AtTag(buffer, child, OpenTag(text))
    ensures ret == 1 ==>
        state.tagbuffer < child.tagname
        && child.tagbuffer + |OpenTag(text).rest| == state.tagbuffer + |text|
  {
    hide Holds, SeqHolds, OpenTag;
    HoldsSeq(buffer, state.tagname, name);
    HoldsSeq(buffer, state.tagbuffer, text);
    ghost var before := buffer[..];
    ret, aborted, child := FindChild(buffer, state, text);
    assert forall i :: 0 <= i < buffer.Length ==> buffer[i] == buffer[..][i];
    KeptBelow(before, buffer, state.tagname, name, state.tagbuffer);
    HoldsSeq(buffer, state.tagbuffer, text);
  }

  lemma ChildrenStep(o: XmlObject, name: string, text: string)
    ensures
      var tag := OpenTag(text);
      && (tag.Malformed? ==> ParseChildren(o, name, text) == Failed)
      && (tag.Aborted? ==> ParseChildren(o, name, text) == Abort)
      && (tag.NoChild? ==>
            var rest := XmlParser.CloseTag(text, name);
            ParseChildren(o, name, text) == if rest.Some? then Done(o, rest.value) else Failed)
      && (tag.Child? && tag.name != "object" && tag.name != "info" ==> ParseChildren(o, name, text) == Failed)
  {
    hide OpenTag, ParseObject, ParseInfo, XmlParser.CloseTag;
  }

  lemma ChildStep(o: XmlObject, name: string, text: string)
    requires OpenTag(text).Child?
    ensures
      var tag := OpenTag(text);
      && (tag.name == "object" ==>
            var p := ParseObject(BLANK, tag);
            ParseChildren(o, name, text) == if p.Done? then ParseChildren(WithChild(o, p.o), name, p.rest) else p)
      && (tag.name == "info" ==>
            var p := ParseInfo(o, tag);
            ParseChildren(o, name, text) == if p.Done? then ParseChildren(p.o, name, p.rest) else p)
  {
    hide OpenTag, ParseInfo, XmlParser.CloseTag;
  }

  function WithChild(o: XmlObject, c: XmlObject): XmlObject {
    o.(children := o.children + [c])
  }

  /** One child: an object, which joins the children of its parent, or an info. */
  method ImportChild(buffer: array<char>, o: XmlObject, state: State, child: State, ghost name: string,
      ghost text: string)
    returns (status: Status, r: XmlObject, ghost rest: string)
    requires AtTag(buffer, child, OpenTag(text)) && child.parent == state && child != state
    requires Holds(buffer, state.tagname, name) && state.tagname + |name| < state.tagbuffer < child.tagname
    requires child.tagbuffer + |OpenTag(text).rest| == state.tagbuffer + |text|
    requires !ParseChildren(o, name, text).PastTag?
    modifies buffer, child, state`tagbuffer
    ensures status == Success ==> ParseChildren(o, name, text) == ParseChildren(r, name, rest)
    ensures status != Success ==> Agrees(ParseChildren(o, name, text), status, r, rest)
    ensures status == Success ==> Holds(buffer, state.tagbuffer, rest) && Holds(buffer, state.tagname, name)
    ensures status == Success ==> |rest| < |text| && state.tagbuffer + |rest| == old(state.tagbuffer) + |text|
    ensures forall i :: 0 <= i < old(state.tagbuffer) && i < buffer.Length ==> buffer[i] == old(buffer[i])
    decreases |OpenTag(text).rest|, 2
  {
    hide Holds, SeqHolds, ParseChildren, OpenTag, ParseObject, ParseInfo;
    r, rest := o, "";
    ghost var tag := OpenTag(text);
    ChildrenStep(o, name, text);
    ChildStep(o, name, text);
    HoldsSeq(buffer, state.tagname, name);
    ghost var before, from := buffer[..], state.tagbuffer;
    var tagname := GetString(buffer, child.tagname, tag.name);
    if tagname == "object" {
      var c;
      status, c, rest := ImportObject(buffer, BLANK, child, tag);
      r := WithChild(o, c);
    } else if tagname == "info" {
      status, r, rest := ImportInfo(buffer, o, child, tag);
    } else {
      status := Error;
    }
    KeptBelow(before, buffer, state.tagname, name, from);
    if status == Success {
      CloseChild(child);
    }
  }

  /** The loop over the children, and the closing tag. */
  method ImportChildren(buffer: array<char>, o: XmlObject, state: State, ghost tag: Tag)
    returns (status: Status, r: XmlObject, ghost rest: string)
    requires tag.Child? && tag.closed == state.closed && !ParseBody(o, tag, tag.rest).PastTag?
    requires Holds(buffer, state.tagname, tag.name) && Holds(buffer, state.tagbuffer, tag.rest)
    requires state.tagname + |tag.name| < state.tagbuffer
    modifies buffer, state`tagbuffer
    ensures Agrees(ParseBody(o, tag, tag.rest), status, r, rest)
    ensures forall i :: 0 <= i < old(state.tagbuffer) && i < buffer.Length ==> buffer[i] == old(buffer[i])
    ensures status == Success ==> Holds(buffer, state.tagbuffer, rest) && old(state.tagbuffer) <= state.tagbuffer
    ensures status == Success ==> state.tagbuffer + |rest| == old(state.tagbuffer) + |tag.rest|
    decreases |tag.rest|, 0
  {
    hide Holds, ParseChildren, OpenTag, XmlParser.CloseTag, ParseObject, ParseInfo, AllAttrs;
    r, rest := o, tag.rest;
    ghost var at := state.tagbuffer;
    while true
      invariant Holds(buffer, state.tagname, tag.name) && Holds(buffer, state.tagbuffer, rest)
      invariant at <= state.tagbuffer && state.tagbuffer + |rest| == at + |tag.rest|
      invariant ParseBody(o, tag, tag.rest) == ParseBody(r, tag, rest)
      invariant forall i :: 0 <= i < at && i < buffer.Length ==> buffer[i] == old(buffer[i])
      decreases |rest|
    {
      var ret, aborted, child := FindNext(buffer, state, tag.name, rest);
      ChildrenStep(r, tag.name, rest);
      if aborted {
        status := AssertionFailed;
        return;
      }
      if ret < 0 {
        status := Error;
        return;
      }
      if ret == 0 {
        break;
      }
      status, r, rest := ImportChild(buffer, r, state, child, tag.name, rest);
      if status != Success {
        return;
      }
    }
    ghost var text := rest;
    var ret := CloseTag(buffer, state, text, tag.name);
    status := if ret == 0 then Success else Error;
    rest := if tag.closed then text else if ret == 0 then XmlParser.CloseTag(text, tag.name).value else "";
  }

  /** `hwloc_look_xml`, on a buffer that ends with a NUL: the headers, the topology tag, the root
      object and the end of the topology, whose outcome is not looked at. */
  method Import(buffer: array<char>, root: XmlObject, ghost text: string) returns (status: Status, r: XmlObject)
    requires Holds(buffer, 0, text) && !ParseDocument(root, text).PastTag?
    modifies buffer
    ensures match ParseDocument(root, text)
      case Done(o, _) => status == Success && r == o
      case Failed => status == Error
      case Abort => status == AssertionFailed
      case PastTag => false
  {
    hide Holds, SeqHolds, OpenTag, ParseObject;
    r := root;
    var ok, p := FindTopology(buffer, text);
    if !ok {
      return Error, r;
    }
    ghost var body := SkipHeaders(text).value[|TOPOLOGY|..];
    var state := new State(null);
    state.tagbuffer := p;
    var ret, aborted, child := FindChild(buffer, state, body);
    if aborted {
      return AssertionFailed, r;
    }
    if ret != 1 {
      return Error, r;
    }
    var tag := GetString(buffer, child.tagname, OpenTag(body).name);
    if tag != "object" {
      return Error, r;
    }
    ghost var rest;
    status, r, rest := ImportObject(buffer, root, child, OpenTag(body));
  }

  /** Skipping the header lines. */
  method FindTopology(buffer: array<char>, ghost text: string) returns (ok: bool, p: nat)
    requires Holds(buffer, 0, text)
    ensures ok <==> SkipHeaders(text).Some? && StartsWith(SkipHeaders(text).value, TOPOLOGY)
    ensures ok ==> Holds(buffer, p, SkipHeaders(text).value[|TOPOLOGY|..])
  {
    hide Holds, StartsWith;
    p := 0;
    ghost var left := text;
    while true
      invariant Holds(buffer, p, left) && SkipHeaders(left) == SkipHeaders(text)
      decreases |left|
    {
      var xml := HasPrefix(buffer, p, XML_HEADER, left);
      var doctype := HasPrefix(buffer, p, DOCTYPE, left);
      if !xml && !doctype {
        break;
      }
      var end := Strchr(buffer, p, '\n', left);
      if end == -1 {
        return false, p;
      }
      HoldsAt(buffer, p, left, end + 1 - p);
      left := left[end + 1 - p..];
      p := end + 1;
    }
    ok := HasPrefix(buffer, p, TOPOLOGY, left);
    if ok {
      StartsLength(left, TOPOLOGY);
      HoldsAt(buffer, p, left, |TOPOLOGY|);
      p := p + |TOPOLOGY|;
    }
  }

  lemma StartsLength(text: string, start: string)
    ensures StartsWith(text, start) ==> |text| >= |start|
  {
  }

  lemma DifferentPrefix(text: string, start: string, k: nat)
    requires k < |start| && (k < |text| ==> text[k] != start[k])
    ensures !StartsWith(text, start)
  {
    if |text| >= |start| {
      assert text[..|start|][k] == text[k];
    }
  }

  /** `!strncmp(start, buffer, strlen(start))`. */
  method HasPrefix(buffer: array<char>, p: nat, start: string, ghost text: string) returns (r: bool)
    requires Holds(buffer, p, text) && NUL !in start
    ensures r == StartsWith(text, start)
  {
    hide Holds;
    for k := 0 to |start|
      invariant k <= |text| && text[..k] == start[..k]
    {
      HoldsAt(buffer, p, text, k);
      assert start[k] in start;
      if buffer[p + k] != start[k] {
        DifferentPrefix(text, start, k);
        return false;
      }
      assert text[..k + 1] == text[..k] + [text[k]] && start[..k + 1] == start[..k] + [start[k]];
    }
    assert start[..|start|] == start;
    r := true;
  }
}
