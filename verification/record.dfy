/** A record header: a four-byte type tag and a 32-bit flag word whose named
    bits are unpacked into booleans. */
module Record {
  import opened Prelude

  /** The named flags, in the order the bit field declares them. */
  datatype Flag =
    | EsmFile
    | Deleted
    | CastsShadows
    | PersistentReference
    | InitiallyDisabled
    | Ignored
    | VisibleWhenDistant
    | Dangerous
    | Compressed
    | CantWait

  /** One entry of the bit-field declaration: a one-bit named flag or a run of
      reserved padding bits. */
  datatype Field = Named(flag: Flag) | Pad(width: nat)

  /** The declaration, least significant field first. */
  const Layout: seq<Field> := [
    Named(EsmFile), Pad(4), Named(Deleted), Pad(3),
    Named(CastsShadows), Named(PersistentReference), Named(InitiallyDisabled), Named(Ignored),
    Pad(2), Named(VisibleWhenDistant), Pad(1),
    Named(Dangerous), Named(Compressed), Named(CantWait), Pad(12)]

  function FieldWidth(f: Field): nat
  {
    match f
    case Named(_) => 1
    case Pad(w) => w
  }

  /** The bit at which field `k` of the declaration starts: the fields are
      packed least significant first, each right above the one before. */
  function Offset(k: nat): nat
    requires k <= |Layout|
  {
    if k == 0 then 0 else Offset(k - 1) + FieldWidth(Layout[k - 1])
  }

  /** The fixed bit position the decoder reads each flag from: the flag's
      mask is the single bit there. */
  function Position(flag: Flag): (i: bv32)
    ensures i < 32 && Mask(flag) == 1 << i
  {
    match flag
    case EsmFile => 0
    case Deleted => 5
    case CastsShadows => 9
    case PersistentReference => 10
    case InitiallyDisabled => 11
    case Ignored => 12
    case VisibleWhenDistant => 15
    case Dangerous => 17
    case Compressed => 18
    case CantWait => 19
  }

  /** The exposed view of a flag word: one boolean per named flag. The
      reserved bits have no accessor. */
  datatype RecordFlag = RecordFlag(
    esmFile: bool,
    deleted: bool,
    castsShadows: bool,
    persistentReference: bool,
    initiallyDisabled: bool,
    ignored: bool,
    visibleWhenDistant: bool,
    dangerous: bool,
    compressed: bool,
    cantWait: bool)
  {
    /** The accessor for `flag`. */
    function Get(flag: Flag): bool
    {
      match flag
      case EsmFile => esmFile
      case Deleted => deleted
      case CastsShadows => castsShadows
      case PersistentReference => persistentReference
      case InitiallyDisabled => initiallyDisabled
      case Ignored => ignored
      case VisibleWhenDistant => visibleWhenDistant
      case Dangerous => dangerous
      case Compressed => compressed
      case CantWait => cantWait
    }
  }

  /** The single bit of the word that carries `flag`. */
  function Mask(flag: Flag): bv32
  {
    match flag
    case EsmFile => 0x1
    case Deleted => 0x20
    case CastsShadows => 0x200
    case PersistentReference => 0x400
    case InitiallyDisabled => 0x800
    case Ignored => 0x1000
    case VisibleWhenDistant => 0x8000
    case Dangerous => 0x2_0000
    case Compressed => 0x4_0000
    case CantWait => 0x8_0000
  }

  function IsSet(w: bv32, flag: Flag): bool
  {
    w & Mask(flag) != 0
  }

  /** `RecordFlag::from_bits`: defined on every 32-bit word. Each accessor
      reads one bit, counting from the least significant. */
  function FromBits(w: bv32): (r: RecordFlag)
    ensures r.esmFile == ((w >> 0) & 1 == 1)
    ensures r.deleted == ((w >> 5) & 1 == 1)
    ensures r.castsShadows == ((w >> 9) & 1 == 1)
    ensures r.persistentReference == ((w >> 10) & 1 == 1)
    ensures r.initiallyDisabled == ((w >> 11) & 1 == 1)
    ensures r.ignored == ((w >> 12) & 1 == 1)
    ensures r.visibleWhenDistant == ((w >> 15) & 1 == 1)
    ensures r.dangerous == ((w >> 17) & 1 == 1)
    ensures r.compressed == ((w >> 18) & 1 == 1)
    ensures r.cantWait == ((w >> 19) & 1 == 1)
  {
    RecordFlag(
      IsSet(w, EsmFile), IsSet(w, Deleted),
      IsSet(w, CastsShadows), IsSet(w, PersistentReference), IsSet(w, InitiallyDisabled), IsSet(w, Ignored),
      IsSet(w, VisibleWhenDistant),
      IsSet(w, Dangerous), IsSet(w, Compressed), IsSet(w, CantWait))
  }

  /** The bits that carry a named flag; every other bit is reserved. */
  const NamedMask: bv32 := 0x000E_9E21

  /** `mask` if `on`, else no bits. */
  function BitsIf(on: bool, mask: bv32): bv32
  {
    if on then mask else 0
  }

  /** A word with exactly the given flags set and every reserved bit clear. */
  function ToBits(f: RecordFlag): bv32
  {
    BitsIf(f.esmFile, 0x1)
    | BitsIf(f.deleted, 0x20)
    | BitsIf(f.castsShadows, 0x200)
    | BitsIf(f.persistentReference, 0x400)
    | BitsIf(f.initiallyDisabled, 0x800)
    | BitsIf(f.ignored, 0x1000)
    | BitsIf(f.visibleWhenDistant, 0x8000)
    | BitsIf(f.dangerous, 0x2_0000)
    | BitsIf(f.compressed, 0x4_0000)
    | BitsIf(f.cantWait, 0x8_0000)
  }

  /** Packed least significant field first, the declaration fills the 32-bit
      word exactly, so every word decodes. */
  lemma LayoutFillsWord()
    ensures Offset(|Layout|) == 32
  {
    assert Offset(4) == 9;
    assert Offset(8) == 13;
    assert Offset(12) == 18;
    assert Offset(14) == 20;
  }

  /** Each named field starts at the bit the decoder reads its flag from. */
  lemma LayoutPlacesFlags()
    ensures forall k :: 0 <= k < |Layout| && Layout[k].Named? ==> Offset(k) == Position(Layout[k].flag) as nat
  {
    assert Offset(4) == 9;
    assert Offset(8) == 13;
    assert Offset(12) == 18;
    forall k | 0 <= k < |Layout| && Layout[k].Named?
      ensures Offset(k) == Position(Layout[k].flag) as nat
    {
      if k < 4 {
        assert k == 0 || k == 2;
      } else if k < 8 {
      } else if k < 12 {
        assert k == 9 || k == 11;
      } else {
        assert k == 12 || k == 13;
      }
    }
  }

  /** Every flag has a field of its own in the declaration. */
  lemma LayoutNamesEveryFlag()
    ensures forall flag :: Named(flag) in Layout
  {
    forall flag
      ensures Named(flag) in Layout
    {
      match flag
      case EsmFile => assert Layout[0] == Named(flag);
      case Deleted => assert Layout[2] == Named(flag);
      case CastsShadows => assert Layout[4] == Named(flag);
      case PersistentReference => assert Layout[5] == Named(flag);
      case InitiallyDisabled => assert Layout[6] == Named(flag);
      case Ignored => assert Layout[7] == Named(flag);
      case VisibleWhenDistant => assert Layout[9] == Named(flag);
      case Dangerous => assert Layout[11] == Named(flag);
      case Compressed => assert Layout[12] == Named(flag);
      case CantWait => assert Layout[13] == Named(flag);
    }
  }

  /** `from_bits(0x21)`: the flag test of the crate. */
  lemma FromBitsExample()
    ensures FromBits(0x21).esmFile
    ensures FromBits(0x21).deleted
    ensures !FromBits(0x21).castsShadows
  {
  }

  /** Reserved bits never influence the decoded flags, and every named bit
      does: two words decode alike exactly when their named bits agree. */
  lemma FromBitsSeesOnlyNamedBits(w: bv32, w': bv32)
    ensures FromBits(w) == FromBits(w') <==> w & NamedMask == w' & NamedMask
  {
  }

  /** Each accessor tests the single bit of its flag. */
  lemma FromBitsReadsMask(w: bv32, flag: Flag)
    ensures FromBits(w).Get(flag) == IsSet(w, flag)
  {
  }

  // One bit of the packed word per flag. Each is a separate lemma because
  // the solver settles a single bit of the word far faster than all ten at
  // once.
  lemma ToBitsKeepsEsmFile(f: RecordFlag) ensures (ToBits(f) & 0x1 != 0) == f.esmFile {}
  lemma ToBitsKeepsDeleted(f: RecordFlag) ensures (ToBits(f) & 0x20 != 0) == f.deleted {}
  lemma ToBitsKeepsCastsShadows(f: RecordFlag) ensures (ToBits(f) & 0x200 != 0) == f.castsShadows {}
  lemma ToBitsKeepsPersistentReference(f: RecordFlag) ensures (ToBits(f) & 0x400 != 0) == f.persistentReference {}
  lemma ToBitsKeepsInitiallyDisabled(f: RecordFlag) ensures (ToBits(f) & 0x800 != 0) == f.initiallyDisabled {}
  lemma ToBitsKeepsIgnored(f: RecordFlag) ensures (ToBits(f) & 0x1000 != 0) == f.ignored {}
  lemma ToBitsKeepsVisibleWhenDistant(f: RecordFlag) ensures (ToBits(f) & 0x8000 != 0) == f.visibleWhenDistant {}
  lemma ToBitsKeepsDangerous(f: RecordFlag) ensures (ToBits(f) & 0x2_0000 != 0) == f.dangerous {}
  lemma ToBitsKeepsCompressed(f: RecordFlag) ensures (ToBits(f) & 0x4_0000 != 0) == f.compressed {}
  lemma ToBitsKeepsCantWait(f: RecordFlag) ensures (ToBits(f) & 0x8_0000 != 0) == f.cantWait {}

  /** Packing then unpacking gives back every flag. */
  lemma FromBitsOfToBits(f: RecordFlag)
    ensures FromBits(ToBits(f)) == f
  {
    ToBitsKeepsEsmFile(f);
    ToBitsKeepsDeleted(f);
    ToBitsKeepsCastsShadows(f);
    ToBitsKeepsPersistentReference(f);
    ToBitsKeepsInitiallyDisabled(f);
    ToBitsKeepsIgnored(f);
    ToBitsKeepsVisibleWhenDistant(f);
    ToBitsKeepsDangerous(f);
    ToBitsKeepsCompressed(f);
    ToBitsKeepsCantWait(f);
  }

  /** Unpacking then packing keeps exactly the named bits and clears the
      reserved ones. */
  lemma ToBitsOfFromBits(w: bv32)
    ensures ToBits(FromBits(w)) == w & NamedMask
  {
  }

  /** A four-byte record type tag. */
  type Tag = s: Bytes | |s| == 4
    witness [0, 0, 0, 0]

  /** A record: its type tag and its flags, nothing else. */
  datatype Record = Record(kind: Tag, flags: RecordFlag)

  /** The `From<([u8; 4], RecordFlag)>` conversion. */
  function FromPair(p: (Tag, RecordFlag)): (r: Record)
    ensures (r.kind, r.flags) == p
  {
    Record(p.0, p.1)
  }

  /** A record and a (tag, flags) pair carry the same information. */
  lemma FromPairIsBijective(r: Record, p: (Tag, RecordFlag))
    ensures FromPair((r.kind, r.flags)) == r
    ensures FromPair(p) == r <==> p == (r.kind, r.flags)
  {
  }
}
