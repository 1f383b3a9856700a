/** The 512-byte header block: how the archiver fills it in, the layout the ustar Interchange Format
    gives it (pax, EXTENDED DESCRIPTION, POSIX.1-2017 XCU), and when the two agree. */
module UstarHeader {
  import opened ByteStrings
  import opened PfsTree
  import Calendar
  import Modes
  import Octal

  const BLOCK := 512

  const NAME := 0
  const MODE := 100
  const SIZE := 124
  const MTIME := 136
  const CHK := 148
  const TYPE := 156
  const LINK := 157
  const MAGIC := 257
  const VERS := 263
  const DEVICE := 329
  const NAME2 := 345

  const USTAR: Bytes := [117, 115, 116, 97, 114, 0]
  const VERSION: Bytes := [48, 48]

  const REGULAR: byte := 48
  const SYMLINK: byte := 50
  const DIRECTORY: byte := 53

  // ----- where a name goes -----

  datatype Placement = Whole | Cut(at: nat) | Skip

  function NextSlash(path: Bytes, i: nat): (r: nat)
    requires i <= |path|
    ensures i <= r <= |path| && (r < |path| ==> path[r] == SLASH)
    ensures SLASH !in path[i..r]
    decreases |path| - i
  {
    if i == |path| || path[i] == SLASH then i else NextSlash(path, i + 1)
  }

  /** The slash to cut at, found from the slash at sep by going on while the next one is before 155. */
  function CutPoint(path: Bytes, sep: nat): (r: nat)
    requires sep < |path| && path[sep] == SLASH
    ensures sep <= r < |path| && path[r] == SLASH
    ensures r == sep || r < 155
    ensures sep < 155 ==> forall i :: r < i < |path| && path[i] == SLASH ==> i >= 155
    decreases |path| - sep
  {
    var next := NextSlash(path, sep + 1);
    if next == |path| || next >= 155 then
      assert forall i :: sep < i < next ==> path[i] == path[sep + 1..next][i - (sep + 1)];
      sep
    else CutPoint(path, next)
  }

  function PlacementOf(path: Bytes): Placement
  {
    if |path| <= 100 then Whole
    else
      var first := NextSlash(path, 0);
      if first == |path| then Skip
      else
        var at := CutPoint(path, first);
        if at >= 155 then Skip else Cut(at)
  }

  // ----- checksum -----

  /** A byte read through plain char, which is signed on the platforms the tool is built for. */
  function Signed(c: byte): int { if c < 128 then c else c - 256 }

  predicate InChecksum(i: nat) { CHK <= i < CHK + 8 }

  /** The sum that tar_checksum forms over the first n bytes, before the unsigned wrap. */
  function SignedSum(h: Bytes, n: nat): int
    requires n <= |h|
  {
    if n == 0 then 0
    else SignedSum(h, n - 1) + if InChecksum(n - 1) then SPACE as int else Signed(h[n - 1])
  }

  /** The sum that the format asks for: all bytes unsigned, the checksum field read as spaces. */
  function RuleSum(h: Bytes, n: nat): nat
    requires n <= |h|
  {
    if n == 0 then 0
    else RuleSum(h, n - 1) + if InChecksum(n - 1) then SPACE as nat else h[n - 1]
  }

  ghost predicate ChecksumRule(h: Bytes)
    requires |h| == BLOCK
  {
    Octal.StrToL(CStr(h[CHK..TYPE])) == RuleSum(h, BLOCK)
  }

  method TarChecksum(b: array<byte>) returns (sum: nat)
    requires b.Length == BLOCK
    ensures sum == U32(SignedSum(b[..], BLOCK))
  {
    sum := 0;
    for i := 0 to BLOCK
      invariant sum == U32(SignedSum(b[..], i))
    {
      ghost var before := SignedSum(b[..], i);
      sum := U32(sum + if InChecksum(i) then SPACE as int else Signed(b[i]));
      assert SignedSum(b[..], i + 1) == before + if InChecksum(i) then SPACE as int else Signed(b[i]);
    }
  }

  lemma {:induction false} SumsIgnoreTheField(h: Bytes, g: Bytes, n: nat)
    requires |h| == |g| == BLOCK && n <= BLOCK
    requires forall i :: 0 <= i < BLOCK && !InChecksum(i) ==> h[i] == g[i]
    ensures SignedSum(h, n) == SignedSum(g, n) && RuleSum(h, n) == RuleSum(g, n)
  {
    if n > 0 {
      SumsIgnoreTheField(h, g, n - 1);
    }
  }

  ghost predicate Ascii(h: Bytes, n: nat)
    requires n <= |h|
  {
    forall i :: 0 <= i < n && !InChecksum(i) ==> h[i] < 128
  }

  lemma {:induction false} SumBounds(h: Bytes, n: nat)
    requires n <= |h|
    ensures -128 * n <= SignedSum(h, n) <= RuleSum(h, n) <= 255 * n
    ensures SignedSum(h, n) <= 127 * n
    ensures SignedSum(h, n) == RuleSum(h, n) <==> Ascii(h, n)
  {
    if n > 0 {
      SumBounds(h, n - 1);
    }
  }

  /** The number that a reader finds in the checksum field. */
  lemma ChecksumFieldValue(sum: int)
    requires -128 * BLOCK <= sum <= 127 * BLOCK
    ensures var v := Octal.StrToL(CStr(Octal.Field(U32(sum), 7)));
      if sum >= 0 then v == sum else v > 255 * BLOCK
  {
    assert Octal.Power8(7) == 2097152 by { assert Octal.Power8(4) == 4096; }
    hide Octal.StrToL, Octal.Field, Octal.Power8;
    if sum < 0 {
      assert U32(sum) == TWO_32 + sum;
      Octal.ElevenDigitsCutToSeven(U32(sum));
    } else {
      Octal.FieldRoundTrip(U32(sum), 7);
    }
  }

  /** The checksum that is written obeys the rule exactly when no byte outside the field has its high bit set. */
  lemma ChecksumIffAscii(h: Bytes)
    requires |h| == BLOCK
    ensures ChecksumRule(Splice(h, CHK, Octal.Field(U32(SignedSum(h, BLOCK)), 7))) <==> Ascii(h, BLOCK)
  {
    hide SignedSum, RuleSum, Octal.StrToL, Octal.Field;
    var f := Octal.Field(U32(SignedSum(h, BLOCK)), 7);
    var g := Splice(h, CHK, f);
    SumsIgnoreTheField(g, h, BLOCK);
    SumBounds(h, BLOCK);
    SpliceAt(h, CHK, f);
    assert g[CHK..TYPE] == f;
    ChecksumFieldValue(SignedSum(h, BLOCK));
  }

  // ----- the header as written -----

  /** The fields every entry has, in the order of the code. */
  function CommonFields(path: Bytes, n: Node): (h: Bytes)
    requires |path| < BLOCK && PlacementOf(path) != Skip
    ensures |h| == BLOCK
  {
    var h := Splice(Zeros(BLOCK), SIZE, ElevenZeros());
    var h := Splice(Splice(h, MAGIC, USTAR), VERS, VERSION);
    var place := PlacementOf(path);
    var h := if place.Cut? then Splice(Splice(h, NAME2, path[..place.at]), NAME, path[place.at..])
             else Splice(h, NAME, path);
    Splice(Splice(h, MODE, Modes.ModeField(n.mode)), MTIME, Calendar.TimeField(n.mtime))
  }

  /** The header before its checksum. */
  function Fields(path: Bytes, n: Node): (h: Bytes)
    requires |path| < BLOCK && PlacementOf(path) != Skip
    ensures |h| == BLOCK
  {
    var h := CommonFields(path, n);
    match n
    case File(_, _, data) => Splice(Splice(h, TYPE, [REGULAR]), SIZE, Octal.Field(U32(|data|), 11))
    case Dir(_, _, _) => Splice(h, TYPE, [DIRECTORY])
    case Link(_, _, target) => Splice(Splice(h, TYPE, [SYMLINK]), LINK, AtMost100(target))
  }

  function ElevenZeros(): (r: Bytes)
    ensures |r| == 11 && forall i :: 0 <= i < 11 ==> r[i] == ZERO_DIGIT
  {
    seq(11, _ => ZERO_DIGIT)
  }

  /** What readlink delivers into 100 bytes. */
  function AtMost100(s: Bytes): (r: Bytes)
    ensures |r| <= 100 && r <= s
    ensures |s| <= 100 ==> r == s
  {
    if |s| < 100 then s else s[..100]
  }

  function Header(path: Bytes, n: Node): (h: Bytes)
    requires |path| < BLOCK && PlacementOf(path) != Skip
    ensures |h| == BLOCK
  {
    var h := Fields(path, n);
    Splice(h, CHK, Octal.Field(U32(SignedSum(h, BLOCK)), 7))
  }

  // ----- the layout of the standard -----

  function TypeFlag(n: Node): byte
  {
    match n case File(_, _, _) => REGULAR case Dir(_, _, _) => DIRECTORY case Link(_, _, _) => SYMLINK
  }

  /** The size field: twelve bytes, zero for everything but a file. */
  function SizeField(n: Node): (r: Bytes)
    ensures |r| == 12
  {
    if n.File? then Octal.Field(U32(|n.data|), 11) else ElevenZeros() + [NUL]
  }

  function LinkField(n: Node): (r: Bytes)
    ensures |r| == 100
  {
    if n.Link? then Pad(AtMost100(n.target), 100) else Zeros(100)
  }

  /** The fields of the ustar Interchange Format that are written as it asks: name[100] mode[8] size[12] mtime[12]
      typeflag[1] linkname[100] magic[6] version[2], and uname[32] gname[32] prefix[155] left empty. */
  ghost predicate IsUstar(h: Bytes, name: Bytes, n: Node)
    requires |name| <= 100
  {
    && |h| == BLOCK
    && h[NAME..MODE] == Pad(name, 100)
    && h[MODE..108] == Modes.ModeField(n.mode)
    && h[SIZE..MTIME] == SizeField(n)
    && h[MTIME..CHK] == Calendar.TimeField(n.mtime)
    && h[TYPE] == TypeFlag(n)
    && h[LINK..MAGIC] == LinkField(n)
    && h[MAGIC..VERS] == USTAR
    && h[VERS..265] == VERSION
    && h[265..DEVICE] == Zeros(64)
    && h[NAME2..BLOCK] == Zeros(167)
  }

  /** uid[8] gid[8] and devmajor[8] devminor[8]: the format asks for octal digits, the code leaves NULs. */
  ghost predicate NumbersMissing(h: Bytes)
  {
    |h| == BLOCK && h[108..SIZE] == Zeros(16) && h[DEVICE..NAME2] == Zeros(16)
  }

  /** Byte i of the layout, the checksum field left out. */
  function LayoutByte(path: Bytes, n: Node, i: nat): byte
    requires |path| <= 100 && i < BLOCK
  {
    if i < MODE then Pad(path, 100)[i]
    else if i < 108 then Modes.ModeField(n.mode)[i - MODE]
    else if i < SIZE then NUL
    else if i < MTIME then SizeField(n)[i - SIZE]
    else if i < CHK then Calendar.TimeField(n.mtime)[i - MTIME]
    else if i < TYPE then NUL
    else if i == TYPE then TypeFlag(n)
    else if i < MAGIC then LinkField(n)[i - LINK]
    else if i < VERS then USTAR[i - MAGIC]
    else if i < 265 then VERSION[i - VERS]
    else NUL
  }

  lemma CommonByte(path: Bytes, n: Node, i: nat)
    requires |path| <= 100 && i < BLOCK
    ensures CommonFields(path, n)[i] ==
      if i < |path| then path[i]
      else if MODE <= i < 108 then Modes.ModeField(n.mode)[i - MODE]
      else if SIZE <= i < 135 then ZERO_DIGIT
      else if MTIME <= i < CHK then Calendar.TimeField(n.mtime)[i - MTIME]
      else if MAGIC <= i < VERS then USTAR[i - MAGIC]
      else if VERS <= i < 265 then VERSION[i - VERS]
      else NUL
  {
    hide Splice, ElevenZeros, Modes.ModeField, Calendar.TimeField;
    var h1 := Splice(Zeros(BLOCK), SIZE, ElevenZeros());
    var h2 := Splice(h1, MAGIC, USTAR);
    var h3 := Splice(h2, VERS, VERSION);
    var h4 := Splice(h3, NAME, path);
    var h5 := Splice(h4, MODE, Modes.ModeField(n.mode));
    SpliceByte(Zeros(BLOCK), SIZE, ElevenZeros(), i);
    SpliceByte(h1, MAGIC, USTAR, i);
    SpliceByte(h2, VERS, VERSION, i);
    SpliceByte(h3, NAME, path, i);
    SpliceByte(h4, MODE, Modes.ModeField(n.mode), i);
    SpliceByte(h5, MTIME, Calendar.TimeField(n.mtime), i);
  }

  /** One byte of the header, seen through all the writes that follow its own. */
  lemma FieldsByte(path: Bytes, n: Node, i: nat)
    requires |path| <= 100 && i < BLOCK
    ensures Fields(path, n)[i] == LayoutByte(path, n, i)
  {
    hide Splice, CommonFields, ElevenZeros, AtMost100, Octal.Field, Modes.ModeField, Calendar.TimeField;
    CommonByte(path, n, i);
    var h := CommonFields(path, n);
    SpliceByte(h, TYPE, [TypeFlag(n)], i);
    var g := Splice(h, TYPE, [TypeFlag(n)]);
    match n {
      case File(_, _, data) => SpliceByte(g, SIZE, Octal.Field(U32(|data|), 11), i);
      case Dir(_, _, _) =>
      case Link(_, _, target) => SpliceByte(g, LINK, AtMost100(target), i);
    }
  }

  /** A field of the layout, as a stretch of the header. */
  lemma FieldIs(path: Bytes, n: Node, at: nat, s: Bytes)
    requires |path| <= 100 && at + |s| <= BLOCK
    requires forall i :: at <= i < at + |s| ==> !InChecksum(i) && LayoutByte(path, n, i) == s[i - at]
    ensures Header(path, n)[at..at + |s|] == s
  {
    hide SignedSum, Octal.Field, Fields, LayoutByte;
    forall i | at <= i < at + |s| ensures Header(path, n)[i] == s[i - at] {
      FieldsByte(path, n, i);
    }
  }

  predicate IsAscii(s: Bytes) { forall i :: 0 <= i < |s| ==> s[i] < 128 }

  /** Everything but the name and the target is ASCII anyway. */
  lemma FieldsAreAsciiIff(path: Bytes, n: Node)
    requires |path| <= 100
    ensures Ascii(Fields(path, n), BLOCK) <==> IsAscii(path) && (n.Link? ==> IsAscii(AtMost100(n.target)))
  {
    hide Fields, LayoutByte, AtMost100, Modes.ModeField, Calendar.TimeField, SizeField;
    var target := if n.Link? then AtMost100(n.target) else [];
    NumbersAreAscii(n);
    if IsAscii(path) && IsAscii(target) {
      forall i | 0 <= i < BLOCK && !InChecksum(i) ensures Fields(path, n)[i] < 128 {
        FieldsByte(path, n, i);
        LayoutByteIsAscii(path, n, i);
      }
    }
    if Ascii(Fields(path, n), BLOCK) {
      forall i | 0 <= i < |path| ensures path[i] < 128 {
        FieldsByte(path, n, i);
        InputBytes(path, n, i);
      }
      forall i | 0 <= i < |target| ensures target[i] < 128 {
        FieldsByte(path, n, LINK + i);
        InputBytes(path, n, i);
      }
    }
  }

  /** Where the name and the target stand in the layout. */
  lemma InputBytes(path: Bytes, n: Node, i: nat)
    requires |path| <= 100 && i < 100
    ensures i < |path| ==> LayoutByte(path, n, i) == path[i]
    ensures n.Link? && i < |AtMost100(n.target)| ==> LayoutByte(path, n, LINK + i) == AtMost100(n.target)[i]
  {
  }

  lemma LayoutByteIsAscii(path: Bytes, n: Node, i: nat)
    requires |path| <= 100 && i < BLOCK && IsAscii(path) && (n.Link? ==> IsAscii(AtMost100(n.target)))
    requires IsAscii(Modes.ModeField(n.mode)) && IsAscii(Calendar.TimeField(n.mtime)) && IsAscii(SizeField(n))
    ensures LayoutByte(path, n, i) < 128
  {
    hide Modes.ModeField, Calendar.TimeField, SizeField, AtMost100;
  }

  lemma NumbersAreAscii(n: Node)
    ensures IsAscii(Modes.ModeField(n.mode)) && IsAscii(Calendar.TimeField(n.mtime)) && IsAscii(SizeField(n))
  {
    hide Modes.ToPosix, Calendar.PosixTime;
    OctalIsAscii(Modes.ToPosix(n.mode), 7);
    OctalIsAscii(U32(Calendar.PosixTime(n.mtime)), 11);
    if n.File? {
      OctalIsAscii(U32(|n.data|), 11);
    }
  }

  lemma OctalIsAscii(v: nat, w: nat)
    ensures IsAscii(Octal.Field(v, w))
  {
    var t := Octal.Text(v, w);
    hide Octal.Text;
    forall i | 0 <= i < w ensures Octal.Field(v, w)[i] < 128 {
      assert Octal.IsDigit(t[i]);
    }
  }

  // ----- names that are cut -----

  /** The part of a cut name that goes to the front of the block, its slash included. */
  function Tail(path: Bytes): (r: Bytes)
    ensures PlacementOf(path).Cut? ==> r == path[PlacementOf(path).at..] && r != [] && r[0] == SLASH
  {
    if PlacementOf(path).Cut? then path[PlacementOf(path).at..] else []
  }

  /** The size field of a directory or link: eleven zeros, or what the tail of a long name has put over them. */
  function StrayField(path: Bytes): (r: Bytes)
    ensures |r| == 12
  {
    seq(12, i requires 0 <= i < 12 => StrayByte(path, i))
  }

  function StrayByte(path: Bytes, i: nat): byte
  {
    if SIZE + i < |Tail(path)| then Tail(path)[SIZE + i] else if i < 11 then ZERO_DIGIT else NUL
  }

  /** The size field of any header that is written; only files write it behind the name. */
  function AnySizeField(path: Bytes, n: Node): (r: Bytes)
    ensures |r| == 12
  {
    if n.File? then Octal.Field(U32(|n.data|), 11) else StrayField(path)
  }

  lemma CutCommonByte(path: Bytes, n: Node, i: nat)
    requires |path| < BLOCK && PlacementOf(path).Cut?
    requires i == 0 || SIZE <= i < MTIME
    ensures CommonFields(path, n)[i] ==
      if i < |Tail(path)| then Tail(path)[i] else if SIZE <= i < 135 then ZERO_DIGIT else NUL
  {
    hide Splice, ElevenZeros, Modes.ModeField, Calendar.TimeField, NextSlash, CutPoint;
    var at := PlacementOf(path).at;
    var h1 := Splice(Zeros(BLOCK), SIZE, ElevenZeros());
    var h2 := Splice(h1, MAGIC, USTAR);
    var h3 := Splice(h2, VERS, VERSION);
    var h4 := Splice(h3, NAME2, path[..at]);
    var h5 := Splice(h4, NAME, path[at..]);
    var h6 := Splice(h5, MODE, Modes.ModeField(n.mode));
    SpliceByte(Zeros(BLOCK), SIZE, ElevenZeros(), i);
    SpliceByte(h1, MAGIC, USTAR, i);
    SpliceByte(h2, VERS, VERSION, i);
    SpliceByte(h3, NAME2, path[..at], i);
    SpliceByte(h4, NAME, path[at..], i);
    SpliceByte(h5, MODE, Modes.ModeField(n.mode), i);
    SpliceByte(h6, MTIME, Calendar.TimeField(n.mtime), i);
  }

  lemma CutFieldsByte(path: Bytes, n: Node, i: nat)
    requires |path| < BLOCK && PlacementOf(path).Cut?
    requires i == 0 || SIZE <= i < MTIME
    ensures Fields(path, n)[i] == if i == 0 then SLASH else AnySizeField(path, n)[i - SIZE]
  {
    hide Splice, CommonFields, ElevenZeros, AtMost100, Octal.Field, PlacementOf, Tail;
    CutCommonByte(path, n, i);
    var h := CommonFields(path, n);
    SpliceByte(h, TYPE, [TypeFlag(n)], i);
    var g := Splice(h, TYPE, [TypeFlag(n)]);
    match n {
      case File(_, _, data) => SpliceByte(g, SIZE, Octal.Field(U32(|data|), 11), i);
      case Dir(_, _, _) =>
      case Link(_, _, target) => SpliceByte(g, LINK, AtMost100(target), i);
    }
  }

  /** The header of a cut name begins with a slash, and its size field is as said. */
  lemma CutHeader(path: Bytes, n: Node)
    requires |path| < BLOCK && PlacementOf(path).Cut?
    ensures Header(path, n)[0] == SLASH && Header(path, n)[SIZE..MTIME] == AnySizeField(path, n)
  {
    hide Fields, AnySizeField, SignedSum, Octal.Field, PlacementOf;
    var h := Fields(path, n);
    var f := Octal.Field(U32(SignedSum(h, BLOCK)), 7);
    CutFieldsByte(path, n, 0);
    SpliceByte(h, CHK, f, 0);
    forall i | SIZE <= i < MTIME ensures Header(path, n)[i] == AnySizeField(path, n)[i - SIZE] {
      CutFieldsByte(path, n, i);
      SpliceByte(h, CHK, f, i);
    }
  }

  lemma FrontFields(path: Bytes, n: Node)
    requires |path| <= 100
    ensures var h := Header(path, n);
      && h[NAME..MODE] == Pad(path, 100)
      && h[MODE..108] == Modes.ModeField(n.mode)
      && h[108..SIZE] == Zeros(16)
      && h[SIZE..MTIME] == SizeField(n)
      && h[MTIME..CHK] == Calendar.TimeField(n.mtime)
  {
    hide Header, Octal.Field, Modes.ModeField, Calendar.TimeField, SizeField, LinkField, Pad, TypeFlag;
    FieldIs(path, n, NAME, Pad(path, 100));
    FieldIs(path, n, MODE, Modes.ModeField(n.mode));
    FieldIs(path, n, 108, Zeros(16));
    FieldIs(path, n, SIZE, SizeField(n));
    FieldIs(path, n, MTIME, Calendar.TimeField(n.mtime));
  }

  lemma BackFields(path: Bytes, n: Node)
    requires |path| <= 100
    ensures var h := Header(path, n);
      && h[TYPE] == TypeFlag(n)
      && h[LINK..MAGIC] == LinkField(n)
      && h[MAGIC..VERS] == USTAR
      && h[VERS..265] == VERSION
      && h[265..DEVICE] == Zeros(64)
      && h[DEVICE..NAME2] == Zeros(16)
      && h[NAME2..BLOCK] == Zeros(167)
  {
    hide Header, Octal.Field, Modes.ModeField, Calendar.TimeField, SizeField, LinkField, Pad, TypeFlag;
    FieldIs(path, n, TYPE, [TypeFlag(n)]);
    assert Header(path, n)[TYPE..TYPE + 1][0] == TypeFlag(n);
    FieldIs(path, n, LINK, LinkField(n));
    FieldIs(path, n, MAGIC, USTAR);
    FieldIs(path, n, VERS, VERSION);
    FieldIs(path, n, 265, Zeros(64));
    FieldIs(path, n, DEVICE, Zeros(16));
    FieldIs(path, n, NAME2, Zeros(167));
  }

  /** For names that fit the name field, the header is the standard's but for the owner and device numbers, and its
      checksum obeys the rule exactly when the name, and the target of a link as far as it is stored, are ASCII. */
  lemma HeaderIsUstar(path: Bytes, n: Node)
    requires |path| <= 100
    ensures IsUstar(Header(path, n), path, n) && NumbersMissing(Header(path, n))
    ensures ChecksumRule(Header(path, n)) <==> IsAscii(path) && (n.Link? ==> IsAscii(AtMost100(n.target)))
  {
    FieldsAreAsciiIff(path, n);
    FrontFields(path, n);
    BackFields(path, n);
    ChecksumIffAscii(Fields(path, n));
    hide SignedSum, RuleSum, ChecksumRule, Fields, Octal.Field, Modes.ModeField, Calendar.TimeField, SizeField, LinkField, Pad, TypeFlag;
  }

  /** A name that is one accented letter, C3 A9, spoils the checksum. */
  lemma AccentSpoilsTheChecksum(n: Node)
    ensures !ChecksumRule(Header([0xC3, 0xA9], n))
  {
    var name: Bytes := [0xC3, 0xA9];
    HeaderIsUstar(name, n);
    assert !(name[0] < 128);
  }
}
