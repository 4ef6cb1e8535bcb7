/**
  * The C interface's `vomitorium_visitor` (`vomitorium.h`): a struct that
  * carries its own size, so a client compiled against an older, shorter
  * version of it still works — a field past the size the client recorded
  * reads as a default instead of as memory the client never had.
  * The layout is the LP64 one: eight 8-byte members, no padding.
  */
module Visitor {

  /** The members of `struct vomitorium_visitor`, in declaration order. */
  datatype Member = Size | UserData | Flags | VisitTree | VisitAgain | VisitString8 | VisitString16 | VisitString32

  /** Each member is a `size_t`, a pointer or a 64-bit bit-field word. */
  const Width := 8

  /** `sizeof(vomitorium_visitor)`. */
  const SizeOf := 64

  /** The member's place in declaration order. */
  function Index(m: Member): (i: nat)
    ensures i < 8
  {
    match m
    case Size => 0
    case UserData => 1
    case Flags => 2
    case VisitTree => 3
    case VisitAgain => 4
    case VisitString8 => 5
    case VisitString16 => 6
    case VisitString32 => 7
  }

  /** `offsetof(vomitorium_visitor, m)`. */
  function Offset(m: Member): nat {
    Index(m) * Width
  }

  /** The members occupy disjoint byte ranges inside the struct. */
  lemma LayoutFits(m: Member, n: Member)
    ensures Offset(m) + Width <= SizeOf
    ensures m != n ==> Offset(m) + Width <= Offset(n) || Offset(n) + Width <= Offset(m)
  {
  }

  /** The struct's contents; pointers and the flag word are numbers, 0 being null. */
  datatype Fields = Fields(
    size: nat, userData: nat, flags: nat,
    visitTree: nat, visitAgain: nat, visitString8: nat, visitString16: nat, visitString32: nat)

  /** `ptr->m`. */
  function Read(x: Fields, m: Member): nat {
    match m
    case Size => x.size
    case UserData => x.userData
    case Flags => x.flags
    case VisitTree => x.visitTree
    case VisitAgain => x.visitAgain
    case VisitString8 => x.visitString8
    case VisitString16 => x.visitString16
    case VisitString32 => x.visitString32
  }

  /** `VOMITORIUM_GET_FIELD(t, s, ptr, m, d)`: the member when it lies wholly within `s` bytes, else `d`. */
  function GetField(x: Fields, s: nat, m: Member, d: nat): nat {
    if Offset(m) + Width <= s then Read(x, m) else d
  }

  /** `VOMITORIUM_VISITOR_GET_FIELD(ptr, m)`: bounded by the struct's own `_size`, null past it. */
  function VisitorGetField(x: Fields, m: Member): nat {
    GetField(x, x.size, m, 0)
  }

  /**
    * A client compiled against the struct as it was up to member `last`
    * (so `_size` is that member's end) sees exactly the members declared
    * up to `last`; every later member reads as null, whatever the bytes
    * past its struct hold.
    */
  lemma OlderClient(x: Fields, last: Member, m: Member)
    requires x.size == Offset(last) + Width
    ensures Index(m) <= Index(last) ==> VisitorGetField(x, m) == Read(x, m)
    ensures Index(m) > Index(last) ==> VisitorGetField(x, m) == 0
  {
  }

  /** A larger recorded size never hides a member a smaller one showed. */
  lemma GetFieldMonotone(x: Fields, s: nat, t: nat, m: Member, d: nat)
    requires s <= t
    requires GetField(x, s, m, d) != d
    ensures GetField(x, t, m, d) == GetField(x, s, m, d)
  {
  }

  /** The struct as a client allocates it. */
  class VisitorStruct {
    var size: nat
    var userData: nat
    var flags: nat
    var visitTree: nat
    var visitAgain: nat
    var visitString8: nat
    var visitString16: nat
    var visitString32: nat

    function Value(): Fields
      reads this
    {
      Fields(size, userData, flags, visitTree, visitAgain, visitString8, visitString16, visitString32)
    }

    constructor(x: Fields)
      ensures Value() == x
    {
      size, userData, flags := x.size, x.userData, x.flags;
      visitTree, visitAgain := x.visitTree, x.visitAgain;
      visitString8, visitString16, visitString32 := x.visitString8, x.visitString16, x.visitString32;
    }

    /** `vomitorium_visitor_init`: zero the whole struct, then record its full size. */
    method Init()
      modifies this
      ensures Value() == Initialized()
    {
      size, userData, flags := 0, 0, 0;
      visitTree, visitAgain := 0, 0;
      visitString8, visitString16, visitString32 := 0, 0, 0;
      size := SizeOf;
    }
  }

  /** The contents `vomitorium_visitor_init` leaves. */
  function Initialized(): Fields {
    Fields(SizeOf, 0, 0, 0, 0, 0, 0, 0)
  }

  /**
    * After `vomitorium_visitor_init` every member is reachable through the
    * bounded accessor, `_size` reads as the full size and every other
    * member as null.
    */
  lemma InitReachesAll(m: Member)
    ensures VisitorGetField(Initialized(), m) == Read(Initialized(), m)
    ensures VisitorGetField(Initialized(), m) == if m == Size then SizeOf else 0
  {
    LayoutFits(m, m);
  }
}
