/** Names in XML documents (src/topology-xml.c, src/topology.c): which types they stand for, and what may be
    part of them. */
module XmlNames {
  import opened ObjTypes
  import opened Collections
  import opened XmlObjects
  import opened XmlParser

  // ---- Types ----

  /** The names of types; in documents they may be in any case. */
  const NAMES := [("System", System), ("Machine", Machine), ("Misc", Misc), ("Group", Group), ("NUMANode", NumaNode),
                  ("Node", NumaNode), ("Socket", Socket), ("Cache", Cache), ("Core", Core), ("PU", PU), ("proc", PU),
                  ("Bridge", Bridge), ("PCIDev", PciDevice), ("OSDev", OsDevice)]

  const CAPITALS := "ABCDEFGHIJKLMNOPQRSTUVWXYZ"
  const SMALL := "abcdefghijklmnopqrstuvwxyz"

  predicate CasesOf(v: nat, a: char, b: char) {
    v < 26 && a == CAPITALS[v] && b == SMALL[v]
  }

  ghost predicate SameLetter(a: char, b: char) {
    a == b || exists v: nat :: CasesOf(v, a, b) || CasesOf(v, b, a)
  }

  ghost predicate SameButCase(a: string, b: string) {
    |a| == |b| && forall k :: 0 <= k < |a| ==> SameLetter(a[k], b[k])
  }

  function LowerChar(c: char): char {
    if 'A' <= c <= 'Z' then c + 32 as char else c
  }

  lemma CapitalHasSmall(c: char)
    requires 'A' <= c <= 'Z'
    ensures CasesOf(c as nat - 'A' as nat, c, LowerChar(c))
  {
    var v := c as nat - 'A' as nat;
    LetterAt(v);
  }

  lemma LetterAt(v: nat)
    requires v < 26
    ensures CAPITALS[v] == ('A' as nat + v) as char && SMALL[v] == ('a' as nat + v) as char
  {
    if v == 0 {} else if v == 1 {} else if v == 2 {} else if v == 3 {} else if v == 4 {} else if v == 5 {}
    else if v == 6 {} else if v == 7 {} else if v == 8 {} else if v == 9 {} else if v == 10 {} else if v == 11 {}
    else if v == 12 {} else if v == 13 {} else if v == 14 {} else if v == 15 {} else if v == 16 {} else if v == 17 {}
    else if v == 18 {} else if v == 19 {} else if v == 20 {} else if v == 21 {} else if v == 22 {} else if v == 23 {}
    else if v == 24 {} else {}
  }

  lemma SameLetterMeans(a: char, b: char)
    ensures SameLetter(a, b) <==> LowerChar(a) == LowerChar(b)
  {
    hide CasesOf;
    forall v: nat, c: char, d: char | CasesOf(v, c, d)
      ensures LowerChar(c) == LowerChar(d)
    {
      CasesMean(v, c, d);
    }
    if 'A' <= a <= 'Z' {
      CapitalHasSmall(a);
    }
    if 'A' <= b <= 'Z' {
      CapitalHasSmall(b);
    }
  }

  lemma CasesMean(v: nat, c: char, d: char)
    requires CasesOf(v, c, d)
    ensures LowerChar(c) == LowerChar(d)
  {
    LetterAt(v);
  }

  lemma SameButCaseMeans(a: string, b: string)
    ensures SameButCase(a, b) <==> Lower(a) == Lower(b)
  {
    hide SameLetter;
    forall k | 0 <= k < |a| && |a| == |b|
      ensures SameLetter(a[k], b[k]) <==> Lower(a)[k] == Lower(b)[k]
    {
      SameLetterMeans(a[k], b[k]);
    }
    if Lower(a) == Lower(b) {
      assert |Lower(a)| == |a| && |Lower(b)| == |b|;
    }
  }

  const LOWER_NAMES := ["system", "machine", "misc", "group", "numanode", "node", "socket", "cache", "core", "pu",
                        "proc", "bridge", "pcidev", "osdev"]

  lemma NamesInLower()
    ensures |LOWER_NAMES| == |NAMES| && forall k :: 0 <= k < |NAMES| ==> Lower(NAMES[k].0) == LOWER_NAMES[k]
  {
  }

  lemma NameFound(text: string, k: nat)
    requires k < |NAMES| && Lower(text) == LOWER_NAMES[k]
    ensures TypeOfString(text) == Some(NAMES[k].1)
  {
    hide Lower;
  }

  lemma NameIsKnown(text: string) returns (k: nat)
    requires TypeOfString(text).Some?
    ensures k < |NAMES| && Lower(text) == LOWER_NAMES[k]
  {
    hide Lower;
    var l := Lower(text);
    k := if l == "system" then 0 else if l == "machine" then 1 else if l == "misc" then 2
      else if l == "group" then 3 else if l == "numanode" then 4 else if l == "node" then 5
      else if l == "socket" then 6 else if l == "cache" then 7 else if l == "core" then 8
      else if l == "pu" then 9 else if l == "proc" then 10 else if l == "bridge" then 11
      else if l == "pcidev" then 12 else 13;
  }

  /** A name stands for a type exactly when it is one of its names but for the case of letters. */
  lemma TypeIsNamed(text: string, t: ObjType)
    ensures TypeOfString(text) == Some(t) <==> exists k :: 0 <= k < |NAMES| && Names(k, text, t)
  {
    hide SameButCase, Lower, TypeOfString;
    NamesInLower();
    forall k | 0 <= k < |NAMES|
      ensures SameButCase(text, NAMES[k].0) <==> Lower(text) == LOWER_NAMES[k]
    {
      SameButCaseMeans(text, NAMES[k].0);
    }
    if TypeOfString(text) == Some(t) {
      var k := NameIsKnown(text);
      NameFound(text, k);
      assert Names(k, text, t);
    }
    if k :| 0 <= k < |NAMES| && Names(k, text, t) {
      NameFound(text, k);
    }
  }

  ghost predicate Names(k: nat, text: string, t: ObjType)
    requires k < |NAMES|
  {
    NAMES[k].1 == t && SameButCase(text, NAMES[k].0)
  }

  /** What is written is the first of these names, in this case. */
  lemma TypeIsWritten(t: ObjType)
    ensures exists k :: 0 <= k < |NAMES| && NAMES[k] == (TypeString(t), t) && k != 5 && k != 10
  {
    var k := match t
      case System => 0
      case Machine => 1
      case Misc => 2
      case Group => 3
      case NumaNode => 4
      case Socket => 6
      case Cache => 7
      case Core => 8
      case PU => 9
      case Bridge => 11
      case PciDevice => 12
      case OsDevice => 13;
    assert NAMES[k] == (TypeString(t), t);
  }

  // ---- Characters ----

  /** What is between attributes and tags. */
  lemma BlankMeans(c: char)
    ensures IsSpace(c) <==> c in " \t\n"
  {
    assert " \t\n"[0] == ' ' && " \t\n"[1] == '\t' && " \t\n"[2] == '\n';
  }

  lemma NameCharMeans(c: char)
    ensures IsNameChar(c) <==> c in SMALL || c == '_'
  {
    if 'a' <= c <= 'z' {
      LetterAt(c as nat - 'a' as nat);
    }
    forall v: nat | v < 26
      ensures 'a' <= SMALL[v] <= 'z'
    {
      LetterAt(v);
    }
  }
}
