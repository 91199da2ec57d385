/** Object types and how they compare (src/topology.c): the order that decides
    which of two objects with the same CPU set goes above the other. */
module ObjTypes {

  /** In the order of `hwloc_obj_type_t`. */
  datatype ObjType =
    | System | Machine | NumaNode | Socket | Cache | Core | PU
    | Group | Misc | Bridge | PciDevice | OsDevice

  /** What an object carries besides its CPU set when objects are compared:
      `depth` is the cache, group or bridge depth, `name` the name of a Misc object. */
  datatype Kind = Kind(typ: ObjType, depth: nat, name: string)

  datatype Rank = Higher | Deeper | Same

  const UNORDERED: int := 0x7fff_ffff

  function Order(t: ObjType): nat {
    match t
    case System => 0
    case Machine => 1
    case NumaNode => 3
    case Socket => 4
    case Cache => 5
    case Core => 6
    case PU => 10
    case Group => 2
    case Misc => 11
    case Bridge => 7
    case PciDevice => 8
    case OsDevice => 9
  }

  predicate IsIo(t: ObjType) {
    t == Bridge || t == PciDevice || t == OsDevice
  }

  function CompareTypes(t1: ObjType, t2: ObjType): int {
    if IsIo(t1) && !IsIo(t2) && t2 != System && t2 != Machine then UNORDERED
    else if IsIo(t2) && !IsIo(t1) && t1 != System && t1 != Machine then UNORDERED
    else Order(t1) - Order(t2)
  }

  function TypeCmp(k1: Kind, k2: Kind): Rank {
    var c := CompareTypes(k1.typ, k2.typ);
    if c > 0 then Deeper
    else if c < 0 then Higher
    else if k1.typ in {Cache, Group, Bridge} && k1.depth < k2.depth then Deeper
    else if k1.typ in {Cache, Group, Bridge} && k1.depth > k2.depth then Higher
    else Same
  }

  /** `strcmp`. */
  function NameCmp(a: string, b: string): int {
    if a == [] || b == [] then |a| - |b|
    else if a[0] != b[0] then a[0] as int - b[0] as int
    else NameCmp(a[1..], b[1..])
  }

  /** The order among objects with equal CPU sets: by type, then Misc objects by name. */
  function KindCmp(k1: Kind, k2: Kind): Rank {
    var r := TypeCmp(k1, k2);
    if r == Same && k1.typ == Misc then
      var c := NameCmp(k1.name, k2.name);
      if c < 0 then Deeper else if c > 0 then Higher else Same
    else r
  }

  function Opposite(r: Rank): Rank {
    match r
    case Higher => Deeper
    case Deeper => Higher
    case Same => Same
  }

  /** Objects that may be inserted by CPU set: everything but I/O. */
  predicate Ordinary(k: Kind) {
    !IsIo(k.typ)
  }

  /** Swapping the operands of a type comparison reverses its answer exactly when the two
      types are ordered at all: an I/O type and a core, say, each come out deeper than the
      other. */
  lemma TypeCmpReverses(k1: Kind, k2: Kind)
    ensures TypeCmp(k2, k1) == Opposite(TypeCmp(k1, k2))
            <==> CompareTypes(k1.typ, k2.typ) != UNORDERED
  {
    assert forall t :: Order(t) <= 11;
  }

  lemma {:induction false} NameCmpReverses(a: string, b: string)
    ensures NameCmp(a, b) == -NameCmp(b, a)
    ensures NameCmp(a, b) == 0 <==> a == b
  {
    if a != [] && b != [] && a[0] == b[0] {
      NameCmpReverses(a[1..], b[1..]);
      assert a == [a[0]] + a[1..] && b == [b[0]] + b[1..];
    }
  }

  lemma {:induction false} NameCmpTransitive(a: string, b: string, c: string)
    requires NameCmp(a, b) < 0 && NameCmp(b, c) < 0
    ensures NameCmp(a, c) < 0
  {
    if a != [] && b != [] && c != [] && a[0] == b[0] == c[0] {
      NameCmpTransitive(a[1..], b[1..], c[1..]);
    }
  }

  lemma KindCmpReverses(k1: Kind, k2: Kind)
    requires Ordinary(k1) && Ordinary(k2)
    ensures KindCmp(k2, k1) == Opposite(KindCmp(k1, k2))
  {
    TypeCmpReverses(k1, k2);
    NameCmpReverses(k1.name, k2.name);
  }

  lemma OrderInjective(t1: ObjType, t2: ObjType)
    requires Order(t1) == Order(t2)
    ensures t1 == t2
  {
  }

  lemma KindCmpTransitive(k1: Kind, k2: Kind, k3: Kind)
    requires Ordinary(k1) && Ordinary(k2) && Ordinary(k3)
    requires KindCmp(k1, k2) == Deeper && KindCmp(k2, k3) == Deeper
    ensures KindCmp(k1, k3) == Deeper
  {
    if k1.typ == k2.typ == k3.typ == Misc {
      NameCmpTransitive(k1.name, k2.name, k3.name);
    } else if Order(k1.typ) == Order(k2.typ) {
      OrderInjective(k1.typ, k2.typ);
    } else if Order(k2.typ) == Order(k3.typ) {
      OrderInjective(k2.typ, k3.typ);
    }
  }
}
