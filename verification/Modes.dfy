/** File modes: the PFS kinds in bits 12 to 15 against the POSIX ones; the permission bits agree. */
module Modes {
  import opened ByteStrings
  import Octal

  const FIO_DIR := 0x1
  const FIO_REG := 0x2
  const FIO_LNK := 0x4

  const S_DIR := 0x4
  const S_REG := 0x8
  const S_LNK := 0xA

  /** Bits 12 to 15 of a mode, FIO_S_IFMT or S_IFMT, as a number. */
  function Kind(m: nat): (k: nat)
    ensures k < 16
  {
    m / 4096 % 16
  }

  /** Bits 0 to 11: set-id bits, sticky bit and access rights. */
  function Permissions(m: nat): (p: nat)
    ensures p < 4096
  {
    m % 4096
  }

  function PosixKind(k: nat): (r: nat)
    ensures r < 16
  {
    if k == FIO_DIR then S_DIR else if k == FIO_REG then S_REG else if k == FIO_LNK then S_LNK else 0
  }

  function IomanXKind(k: nat): (r: nat)
    ensures r < 16
  {
    if k == S_DIR then FIO_DIR else if k == S_REG then FIO_REG else if k == S_LNK then FIO_LNK else 0
  }

  function ToPosix(m: nat): (p: nat)
    ensures p < 65536
  {
    PosixKind(Kind(m)) * 4096 + Permissions(m)
  }

  function ToIomanX(p: nat): (m: nat)
    ensures m < 65536
  {
    IomanXKind(Kind(p)) * 4096 + Permissions(p)
  }

  /** The part of m that the bit of the given weight makes up: what `if (m & weight) p |= weight` adds. */
  function Bit(m: nat, weight: nat): nat
    requires weight > 0
  {
    m / weight % 2 * weight
  }

  lemma PermissionsAreTheirBits(m: nat)
    ensures Permissions(m) ==
      Bit(m, 0x100) + Bit(m, 0x80) + Bit(m, 0x40) + Bit(m, 0x20) + Bit(m, 0x10) + Bit(m, 8)
      + Bit(m, 4) + Bit(m, 2) + Bit(m, 1) + Bit(m, 0x800) + Bit(m, 0x400) + Bit(m, 0x200)
  {
    OctalDigitBits(m);
    OctalDigitBits(m / 8);
    OctalDigitBits(m / 64);
    OctalDigitBits(m / 512);
    assert m / 16 == m / 8 / 2 && m / 32 == m / 8 / 4;
    assert m / 128 == m / 64 / 2 && m / 256 == m / 64 / 4;
    assert m / 1024 == m / 512 / 2 && m / 2048 == m / 512 / 4;
    FourOctalDigits(m);
  }

  lemma OctalDigitBits(m: nat)
    ensures m % 8 == m / 4 % 2 * 4 + m / 2 % 2 * 2 + m % 2
  {
    assert m / 4 == m / 2 / 2;
    var e := m / 4 / 2;
    assert m == 8 * e + m / 4 % 2 * 4 + m / 2 % 2 * 2 + m % 2;
  }

  lemma FourOctalDigits(m: nat)
    ensures m % 4096 == m / 512 % 8 * 512 + m / 64 % 8 * 64 + m / 8 % 8 * 8 + m % 8
  {
    assert m / 64 == m / 8 / 8 && m / 512 == m / 64 / 8 && m / 4096 == m / 512 / 8;
  }

  /** Every |= of the source sets bits that are still clear, so it adds them. */
  method ConvertModeToPosix(m: nat) returns (p: nat)
    ensures p == ToPosix(m)
  {
    p := 0;
    if Kind(m) == FIO_DIR { p := p + 4096 * S_DIR; }
    if Kind(m) == FIO_REG { p := p + 4096 * S_REG; }
    if Kind(m) == FIO_LNK { p := p + 4096 * S_LNK; }
    p := AddPermissions(m, p);
  }

  method ConvertPosixModeToIomanX(p: nat) returns (m: nat)
    ensures m == ToIomanX(p)
  {
    m := 0;
    if Kind(p) == S_DIR { m := m + 4096 * FIO_DIR; }
    if Kind(p) == S_REG { m := m + 4096 * FIO_REG; }
    if Kind(p) == S_LNK { m := m + 4096 * FIO_LNK; }
    m := AddPermissions(p, m);
  }

  /** The twelve single-bit copies that the two converters share. */
  method AddPermissions(m: nat, start: nat) returns (p: nat)
    ensures p == start + Permissions(m)
  {
    hide Permissions, Bit;
    p := start;
    p := p + Bit(m, 0x100);
    p := p + Bit(m, 0x80);
    p := p + Bit(m, 0x40);
    p := p + Bit(m, 0x20);
    p := p + Bit(m, 0x10);
    p := p + Bit(m, 8);
    p := p + Bit(m, 4);
    p := p + Bit(m, 2);
    p := p + Bit(m, 1);
    p := p + Bit(m, 0x800);
    p := p + Bit(m, 0x400);
    p := p + Bit(m, 0x200);
    PermissionsAreTheirBits(m);
  }

  /** The mode field of the header. */
  function ModeField(m: nat): (r: Bytes)
    ensures |r| == 8
  {
    Octal.Field(ToPosix(m), 7)
  }

  /** The mode the reader finds in such a field; the conversion looks at the low 16 bits only. */
  function ModeFromField(f: Bytes): nat
    requires |f| >= 7
  {
    ToIomanX(Octal.StrToL(CStr(f[..7])) % 65536)
  }

  /** The modes of PFS nodes: 16 bits, and one of the three kinds, or none. */
  predicate Storable(m: nat)
  {
    m < 65536 && (Kind(m) == 0 || Kind(m) == FIO_DIR || Kind(m) == FIO_REG || Kind(m) == FIO_LNK)
  }

  lemma KindsRoundTrip(m: nat)
    ensures ToIomanX(ToPosix(m)) == m <==> Storable(m)
  {
    assert Kind(ToPosix(m)) == PosixKind(Kind(m));
    assert Permissions(ToPosix(m)) == Permissions(m);
    assert m < 65536 ==> m == Kind(m) * 4096 + Permissions(m);
    assert Kind(ToIomanX(ToPosix(m))) == IomanXKind(PosixKind(Kind(m)));
  }

  /** Header and back gives the same mode exactly when it is storable. */
  lemma ModeRoundTrip(m: nat)
    ensures ModeFromField(ModeField(m)) == m <==> Storable(m)
  {
    hide ToPosix, ToIomanX, Storable;
    SevenDigits();
    hide Octal.Power8, Octal.Field, Octal.StrToL;
    Octal.FieldReadShort(ToPosix(m), 7);
    KindsRoundTrip(m);
  }

  /** The permission bits of any mode come back. */
  lemma PermissionsSurvive(m: nat)
    ensures Permissions(ModeFromField(ModeField(m))) == Permissions(m)
  {
    hide ToPosix, ToIomanX;
    SevenDigits();
    hide Octal.Power8, Octal.Field, Octal.StrToL;
    Octal.FieldReadShort(ToPosix(m), 7);
    BothKeepPermissions(m);
  }

  lemma BothKeepPermissions(m: nat)
    ensures Permissions(ToIomanX(ToPosix(m))) == Permissions(m)
  {
    assert Permissions(ToPosix(m)) == Permissions(m);
  }

  lemma SevenDigits()
    ensures Octal.Power8(7) == 0x20_0000
  {
    assert Octal.Power8(3) == 512;
    assert Octal.Power8(6) == 512 * 512;
  }
}
