/** The header block as another tar program sees it: every byte that the archiver writes, by its number, for names
    that fit the name field and for names that are cut. */
module HeaderNumbers {
  import opened ByteStrings
  import opened PfsTree
  import opened UstarHeader
  import opened Calendar
  import opened Clock
  import Modes
  import Octal

  // ----- octal digits -----

  const POWERS: seq<nat> := [1, 8, 64, 512, 4096, 32768, 262144, 2097152, 16777216, 134217728, 1073741824, 8589934592]

  /** w octal digits from position at on that spell v, the leading one first, and a NUL behind them. */
  predicate Spells(h: Bytes, at: nat, w: nat, v: nat)
    requires at + w < |h| && w <= 11
  {
    h[at + w] == 0 && forall i :: at <= i < at + w ==> h[i] == 48 + v / POWERS[w - 1 - (i - at)] % 8
  }

  lemma PowersOfEight(k: nat)
    requires k <= 11
    ensures Octal.Power8(k) == POWERS[k]
  {
    if k > 0 {
      PowersOfEight(k - 1);
    }
  }

  lemma DivideTwice(v: nat, p: nat)
    requires p > 0
    ensures v / 8 / p == v / (8 * p)
  {
    var q, r := v / (8 * p), v % (8 * p);
    assert v == q * (8 * p) + r;
    assert q * (8 * p) == 8 * (q * p);
    assert v / 8 == q * p + r / 8;
    assert 0 <= r / 8 < p;
    QuotientIs(v / 8, p, q, r / 8);
  }

  lemma QuotientIs(v: nat, p: nat, q: nat, r: nat)
    requires p > 0 && v == q * p + r && r < p
    ensures v / p == q
  {
    assert v == (v / p) * p + v % p;
    LessFactor(v / p, q + 1, p);
    LessFactor(q, v / p + 1, p);
  }

  lemma LessFactor(a: nat, b: nat, c: nat)
    requires a * c < b * c
    ensures a < b
  {
    if b <= a {
      LeastFactor(b, a, c);
    }
  }

  lemma LeastFactor(a: nat, b: nat, c: nat)
    requires a <= b
    ensures a * c <= b * c
  {
  }

  lemma {:induction false} TextDigit(v: nat, w: nat, k: nat)
    requires v < Octal.Power8(w) && k < w
    ensures |Octal.Text(v, w)| == w && Octal.Text(v, w)[k] == 48 + v / Octal.Power8(w - 1 - k) % 8
  {
    Octal.TextLength(v, w);
    Octal.TextLength(v / 8, w - 1);
    if k < w - 1 {
      TextDigit(v / 8, w - 1, k);
      DivideTwice(v, Octal.Power8(w - 2 - k));
    }
  }

  lemma FieldSpells(v: nat, w: nat)
    requires 0 < w <= 11 && v < POWERS[w]
    ensures Spells(Octal.Field(v, w), 0, w, v)
  {
    PowersOfEight(w);
    Octal.TextLength(v, w);
    forall k | 0 <= k < w ensures Octal.Field(v, w)[k] == 48 + v / POWERS[w - 1 - k] % 8 {
      TextDigit(v, w, k);
      PowersOfEight(w - 1 - k);
    }
  }

  lemma SpelledAt(h: Bytes, at: nat, w: nat, v: nat)
    requires 0 < w <= 11 && v < POWERS[w] && at + w < |h| && h[at..at + w + 1] == Octal.Field(v, w)
    ensures Spells(h, at, w, v)
  {
    FieldSpells(v, w);
    var f := Octal.Field(v, w);
    forall i | at <= i <= at + w ensures h[i] == f[i - at] {
      assert h[i] == h[at..at + w + 1][i - at];
    }
  }

  // ----- all bytes -----

  /** The part of the name in front of the cut, and the part that goes to the front of the block. */
  function Front(path: Bytes): (r: Bytes)
    ensures PlacementOf(path).Cut? ==> r <= path && |r| == PlacementOf(path).at < |path|
    ensures !PlacementOf(path).Cut? ==> r == []
    ensures |r| < 155
  {
    if PlacementOf(path).Cut? then path[..PlacementOf(path).at] else []
  }

  function Rest(path: Bytes): (r: Bytes)
    ensures path == Front(path) + r
  {
    if PlacementOf(path).Cut? then path[PlacementOf(path).at..] else path
  }

  /** Byte i of the block, the checksum field left out; whatever is written later covers what was there. */
  function WrittenByte(path: Bytes, n: Node, i: nat): byte
    requires |path| < 512 && i < 512
  {
    if 100 <= i < 108 then Modes.ModeField(n.mode)[i - 100]
    else if 136 <= i < 148 then Calendar.TimeField(n.mtime)[i - 136]
    else if i == 156 then match n case File(_, _, _) => 48 case Link(_, _, _) => 50 case Dir(_, _, _) => 53
    else if n.File? && 124 <= i < 136 then Octal.Field(U32(|n.data|), 11)[i - 124]
    else if n.Link? && 157 <= i < 157 + |AtMost100(n.target)| then AtMost100(n.target)[i - 157]
    else if i < |Rest(path)| then Rest(path)[i]
    else if 345 <= i < 345 + |Front(path)| then Front(path)[i - 345]
    else if 124 <= i < 135 then 48
    else if 257 <= i < 262 then "ustar"[i - 257] as int
    else if 263 <= i < 265 then 48
    else 0
  }

  lemma CommonByteIs(path: Bytes, n: Node, i: nat)
    requires |path| < 512 && PlacementOf(path) != Skip && i < 512
    ensures CommonFields(path, n)[i] ==
      if 100 <= i < 108 then Modes.ModeField(n.mode)[i - 100]
      else if 136 <= i < 148 then Calendar.TimeField(n.mtime)[i - 136]
      else if i < |Rest(path)| then Rest(path)[i]
      else if 345 <= i < 345 + |Front(path)| then Front(path)[i - 345]
      else if 124 <= i < 135 then 48
      else if 257 <= i < 263 then USTAR[i - 257]
      else if 263 <= i < 265 then VERSION[i - 263]
      else 0
  {
    hide Splice, ElevenZeros, Modes.ModeField, Calendar.TimeField, PlacementOf;
    var h1 := Splice(Zeros(BLOCK), SIZE, ElevenZeros());
    var h2 := Splice(h1, MAGIC, USTAR);
    var h3 := Splice(h2, VERS, VERSION);
    var h4 := if PlacementOf(path).Cut? then Splice(h3, NAME2, Front(path)) else h3;
    var h5 := Splice(h4, NAME, Rest(path));
    var h6 := Splice(h5, MODE, Modes.ModeField(n.mode));
    SpliceByte(Zeros(BLOCK), SIZE, ElevenZeros(), i);
    SpliceByte(h1, MAGIC, USTAR, i);
    SpliceByte(h2, VERS, VERSION, i);
    if PlacementOf(path).Cut? {
      SpliceByte(h3, NAME2, Front(path), i);
    }
    SpliceByte(h4, NAME, Rest(path), i);
    SpliceByte(h5, MODE, Modes.ModeField(n.mode), i);
    SpliceByte(h6, MTIME, Calendar.TimeField(n.mtime), i);
  }

  lemma FieldsByteIs(path: Bytes, n: Node, i: nat)
    requires |path| < 512 && PlacementOf(path) != Skip && i < 512
    ensures Fields(path, n)[i] == WrittenByte(path, n, i)
  {
    hide Splice, CommonFields, ElevenZeros, AtMost100, Octal.Field, PlacementOf, Front, Rest, Modes.ModeField, Calendar.TimeField;
    CommonByteIs(path, n, i);
    var h := CommonFields(path, n);
    SpliceByte(h, TYPE, [TypeFlag(n)], i);
    var g := Splice(h, TYPE, [TypeFlag(n)]);
    match n {
      case File(_, _, data) => SpliceByte(g, SIZE, Octal.Field(U32(|data|), 11), i);
      case Dir(_, _, _) =>
      case Link(_, _, target) => SpliceByte(g, LINK, AtMost100(target), i);
    }
    Magic(i);
  }

  lemma Magic(i: nat)
    ensures 257 <= i < 263 ==> USTAR[i - 257] == if i < 262 then "ustar"[i - 257] as int else 0
    ensures 263 <= i < 265 ==> VERSION[i - 263] == 48
  {
  }

  /** Every byte of every header but the checksum. */
  lemma HeaderByte(path: Bytes, n: Node, i: nat)
    requires |path| < 512 && PlacementOf(path) != Skip && i < 512 && !(148 <= i < 156)
    ensures Header(path, n)[i] == WrittenByte(path, n, i)
  {
    hide Fields, WrittenByte, SignedSum, Octal.Field, PlacementOf;
    var h := Fields(path, n);
    FieldsByteIs(path, n, i);
    SpliceByte(h, CHK, Octal.Field(U32(SignedSum(h, BLOCK)), 7), i);
  }

  // ----- what the numbers are -----

  /** The mode as POSIX numbers it: octal 0040000 for directories, 0100000 for files, 0120000 for links. */
  function PosixMode(n: Node): nat
  {
    n.mode % 4096 + match n case Dir(_, _, _) => 0x4000 case File(_, _, _) => 0x8000 case Link(_, _, _) => 0xA000
  }

  lemma ModeIs(n: Node)
    requires n.mode / 4096 % 16 == match n case Dir(_, _, _) => 1 case File(_, _, _) => 2 case Link(_, _, _) => 4
    ensures Modes.ModeField(n.mode) == Octal.Field(PosixMode(n), 7)
  {
  }

  /** The stamp's bytes are the fields of the clock that many seconds after the Epoch. */
  predicate StampedAt(b: Stamp, seconds: nat)
  {
    ClockAt(seconds) == Tm(b[1], b[2], b[3], b[4], b[5] as int - 1, b[6] as int + 256 * (b[7] as int))
  }

  lemma TimeIs(b: Stamp, seconds: nat)
    requires StampedAt(b, seconds)
    requires seconds + 32400 < 0x1_0000_0000
    ensures Calendar.TimeField(b) == Octal.Field(seconds + 32400, 11)
  {
    hide ClockAt, Calendar.TimeGm, Octal.Field;
    TimeGmCountsSeconds(seconds);
  }

  /** What any reader of the format finds: the kind, the mode, the time of the last change as seconds since the Epoch
      plus nine hours, and the size of a file. */
  lemma NumbersInHeader(path: Bytes, n: Node, seconds: nat)
    requires |path| < 512 && PlacementOf(path) != Skip
    requires n.mode / 4096 % 16 == match n case Dir(_, _, _) => 1 case File(_, _, _) => 2 case Link(_, _, _) => 4
    requires StampedAt(n.mtime, seconds) && seconds + 32400 < 0x1_0000_0000
    ensures var h := Header(path, n);
      && Spells(h, 100, 7, PosixMode(n))
      && Spells(h, 136, 11, seconds + 32400)
      && h[156] == (match n case File(_, _, _) => 48 case Link(_, _, _) => 50 case Dir(_, _, _) => 53)
      && (n.File? && |n.data| < 0x1_0000_0000 ==> Spells(h, 124, 11, |n.data|))
  {
    hide Header, Octal.Field, StampedAt, Calendar.TimeField, Modes.ModeField, PlacementOf, Spells, POWERS;
    var h := Header(path, n);
    ModeIs(n);
    TimeInHeader(path, n, seconds);
    FieldsOfHeader(path, n);
    FitsDigits(PosixMode(n), seconds + 32400);
    SpelledAt(h, 100, 7, PosixMode(n));
    if n.File? && |n.data| < 0x1_0000_0000 {
      FitsDigits(0, |n.data|);
      SpelledAt(h, 124, 11, |n.data|);
    }
  }

  lemma FitsDigits(a: nat, b: nat)
    ensures a < 0x1_0000 ==> a < POWERS[7]
    ensures b < 0x1_0000_0000 ==> b < POWERS[11]
  {
  }

  lemma TimeInHeader(path: Bytes, n: Node, seconds: nat)
    requires |path| < 512 && PlacementOf(path) != Skip
    requires StampedAt(n.mtime, seconds) && seconds + 32400 < 0x1_0000_0000
    ensures Spells(Header(path, n), 136, 11, seconds + 32400)
  {
    hide Header, Octal.Field, StampedAt, Calendar.TimeField, Modes.ModeField, PlacementOf, Spells, POWERS;
    FitsDigits(0, seconds + 32400);
    TimeIs(n.mtime, seconds);
    FieldsOfHeader(path, n);
    SpelledAt(Header(path, n), 136, 11, seconds + 32400);
  }

  lemma FieldsOfHeader(path: Bytes, n: Node)
    requires |path| < 512 && PlacementOf(path) != Skip
    ensures var h := Header(path, n);
      && h[100..108] == Modes.ModeField(n.mode) && h[136..148] == Calendar.TimeField(n.mtime)
      && h[156] == (match n case File(_, _, _) => 48 case Link(_, _, _) => 50 case Dir(_, _, _) => 53)
      && (n.File? ==> h[124..136] == Octal.Field(U32(|n.data|), 11))
  {
    hide Header, Octal.Field, Calendar.TimeField, Modes.ModeField, PlacementOf, Front, Rest, AtMost100;
    var h := Header(path, n);
    HeaderByte(path, n, 156);
    forall i | 100 <= i < 148 ensures h[i] == WrittenByte(path, n, i) {
      HeaderByte(path, n, i);
    }
  }

  /** The name: what is behind the cut at the front of the block, what is in front of it, without the slash between
      them, in the prefix field as far as the rest has not run over it. */
  lemma NameInHeader(path: Bytes, n: Node)
    requires |path| < 512 && PlacementOf(path) != Skip
    ensures var h := Header(path, n);
      && (forall i :: 0 <= i < 100 ==> h[i] == if i < |Rest(path)| then Rest(path)[i] else 0)
      && (forall i :: 0 <= i < |Front(path)| && 345 + i >= |Rest(path)| ==> h[345 + i] == Front(path)[i])
  {
    hide Header, PlacementOf, Front, Rest;
    forall i | 0 <= i < 512 && !(148 <= i < 156) ensures Header(path, n)[i] == WrittenByte(path, n, i) {
      HeaderByte(path, n, i);
    }
  }

  /** Where a name goes, said on its characters: whole up to 100 bytes; otherwise cut at the last slash in front of
      position 155; skipped if there is none. */
  lemma PlacementExactly(path: Bytes, at: nat)
    ensures PlacementOf(path) == Whole <==> |path| <= 100
    ensures PlacementOf(path) == Skip <==> |path| > 100 && forall i :: 0 <= i < |path| && i < 155 ==> path[i] != 47
    ensures PlacementOf(path) == Cut(at) <==>
      |path| > 100 && at < 155 && at < |path| && path[at] == 47 && forall i :: at < i < |path| && i < 155 ==> path[i] != 47
  {
    if |path| > 100 {
      var first := NextSlash(path, 0);
      assert forall i :: 0 <= i < first ==> path[i] == path[0..first][i];
      if first < |path| {
        var cut := CutPoint(path, first);
        assert cut == first || cut < 155;
      }
    }
  }

  // ----- the checksum -----

  /** Byte i of the rest of the name is still there when all fields are written. */
  predicate Shown(n: Node, i: nat)
  {
    && !(100 <= i < 108) && !(136 <= i < 157) && !(n.File? && 124 <= i < 136)
    && !(n.Link? && 157 <= i < 157 + |AtMost100(n.target)|)
  }

  /** The checksum of any header obeys the rule exactly when what is left of the name, and the target, are ASCII. */
  lemma ChecksumOfAnyHeader(path: Bytes, n: Node)
    requires |path| < 512 && PlacementOf(path) != Skip
    ensures ChecksumRule(Header(path, n)) <==>
      && (forall i :: 0 <= i < |Rest(path)| && Shown(n, i) ==> Rest(path)[i] < 128)
      && (forall i :: 0 <= i < |Front(path)| && 345 + i >= |Rest(path)| ==> Front(path)[i] < 128)
      && (n.Link? ==> IsAscii(AtMost100(n.target)))
  {
    hide ChecksumRule, SignedSum, Octal.Field, Fields, PlacementOf, Front, Rest, AtMost100;
    ChecksumIffAscii(Fields(path, n));
    AsciiIffShown(path, n);
  }

  lemma AsciiIffShown(path: Bytes, n: Node)
    requires |path| < 512 && PlacementOf(path) != Skip
    ensures Ascii(Fields(path, n), BLOCK) <==>
      && (forall i :: 0 <= i < |Rest(path)| && Shown(n, i) ==> Rest(path)[i] < 128)
      && (forall i :: 0 <= i < |Front(path)| && 345 + i >= |Rest(path)| ==> Front(path)[i] < 128)
      && (n.Link? ==> IsAscii(AtMost100(n.target)))
  {
    hide Fields, PlacementOf, Front, Rest, AtMost100, Octal.Field, Modes.ModeField, Calendar.TimeField;
    var h, rest, front := Fields(path, n), Rest(path), Front(path);
    forall i | 0 <= i < 512 ensures h[i] == WrittenByte(path, n, i) {
      FieldsByteIs(path, n, i);
    }
    FieldsAscii(n);
    if Ascii(h, BLOCK) {
      forall i | 0 <= i < |rest| && Shown(n, i) ensures rest[i] < 128 {
        assert h[i] == rest[i];
      }
      forall i | 0 <= i < |front| && 345 + i >= |rest| ensures front[i] < 128 {
        assert h[345 + i] == front[i];
      }
      if n.Link? {
        forall i | 0 <= i < |AtMost100(n.target)| ensures AtMost100(n.target)[i] < 128 {
          assert h[157 + i] == AtMost100(n.target)[i];
        }
      }
    }
  }

  lemma FieldsAscii(n: Node)
    ensures IsAscii(Modes.ModeField(n.mode)) && IsAscii(Calendar.TimeField(n.mtime))
    ensures n.File? ==> IsAscii(Octal.Field(U32(|n.data|), 11))
  {
    NumbersAreAscii(n);
    if n.File? {
      OctalIsAscii(U32(|n.data|), 11);
    }
  }

  /** The sum of the rule: 256 for a block of NULs, because the field counts as eight spaces; any other byte counts
      as it is. */
  lemma {:induction false} RuleSumIs(h: Bytes, n: nat, i: nat, b: byte)
    requires |h| == 512 && n <= 512 && i < 512
    ensures (forall k :: 0 <= k < 512 ==> h[k] == 0) && n == 512 ==> RuleSum(h, n) == 256
    ensures RuleSum(h[i := b], n) == RuleSum(h, n) + if i < n && !(148 <= i < 156) then b - h[i] else 0
  {
    OneByteOfSum(h, n, i, b);
    if forall k :: 0 <= k < 512 ==> h[k] == 0 {
      SumOfNothing(h, n);
    }
  }

  lemma {:induction false} OneByteOfSum(h: Bytes, n: nat, i: nat, b: byte)
    requires |h| == 512 && n <= 512 && i < 512
    ensures RuleSum(h[i := b], n) == RuleSum(h, n) + if i < n && !(148 <= i < 156) then b - h[i] else 0
  {
    if n > 0 {
      OneByteOfSum(h, n - 1, i, b);
    }
  }

  lemma {:induction false} SumOfNothing(h: Bytes, n: nat)
    requires |h| == 512 && n <= 512 && forall k :: 0 <= k < 512 ==> h[k] == 0
    ensures RuleSum(h, n) == if n <= 148 then 0 else if n < 156 then 32 * (n - 148) else 256
  {
    if n > 0 {
      SumOfNothing(h, n - 1);
    }
  }
}
