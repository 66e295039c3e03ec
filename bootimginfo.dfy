/**
 * The persistent A/B boot-slot record of the ZynqMP image selector
 * (struct sys_boot_img_info): its packed 32-byte layout on flash, the
 * eight little-endian words the checksum is computed over, the checksum
 * itself, and the two in-memory transformations the command applies to
 * the record (validation, which rewrites the checksum field, and update
 * of the slot fields).
 */
module BootImgInfo {
  import opened MachineInts

  /** The packed record is 8 words, 32 bytes. */
  const RecordWords: nat := 8
  const RecordBytes: nat := 32
  /** Word index of the checksum field (SYS_CHECKSUM_OFFSET). */
  const ChecksumIndex: nat := 3

  /** SYS_BOOT_IMG_A_ID and SYS_BOOT_IMG_B_ID. */
  const ImageA: byte := 0
  const ImageB: byte := 1

  /** The identification string 'A', 'B', 'U', 'M'. */
  const Magic: seq<byte> := [0x41, 0x42, 0x55, 0x4D]

  type IdStr = s: seq<byte> | |s| == 4 witness [0, 0, 0, 0]

  /** struct sys_persistent_state, in memory order. */
  datatype PersistentState = PersistentState(
    lastBootedImg: byte,
    requestedBootImg: byte,
    imgBBootable: byte,
    imgABootable: byte)

  /** struct sys_boot_img_info, in memory order. */
  datatype Info = Info(
    idstr: IdStr,
    ver: u32,
    len: u32,
    checksum: u32,
    state: PersistentState,
    bootImgAOffset: u32,
    bootImgBOffset: u32,
    recoveryImgOffset: u32)

  // ---------------------------------------------------------------------
  // Little-endian words

  function LeWord(b: seq<byte>): u32
    requires |b| == 4
  {
    (b[0] as int + 0x100 * b[1] as int + 0x1_0000 * b[2] as int + 0x100_0000 * b[3] as int) as u32
  }

  function LeBytes(w: u32): (b: seq<byte>)
    ensures |b| == 4
  {
    [(w as int % 0x100) as byte, (w as int / 0x100 % 0x100) as byte,
     (w as int / 0x1_0000 % 0x100) as byte, (w as int / 0x100_0000) as byte]
  }

  lemma LeWordOfLeBytes(w: u32)
    ensures LeWord(LeBytes(w)) == w
  {
    var x := w as int;
    var q1, q2, q3 := x / 0x100, x / 0x1_0000, x / 0x100_0000;
    assert x == q1 * 0x100 + x % 0x100;
    assert q2 == q1 / 0x100 && q1 == q2 * 0x100 + q1 % 0x100;
    assert q3 == q2 / 0x100 && q2 == q3 * 0x100 + q2 % 0x100;
  }

  lemma DivModByte(q: int, r: int)
    requires 0 <= r < 0x100
    ensures (q * 0x100 + r) / 0x100 == q && (q * 0x100 + r) % 0x100 == r
  {
  }

  lemma LeBytesOfLeWord(b: seq<byte>)
    requires |b| == 4
    ensures LeBytes(LeWord(b)) == b
  {
    var b0, b1, b2, b3 := b[0] as int, b[1] as int, b[2] as int, b[3] as int;
    var w := LeWord(b) as int;
    assert w == (b3 * 0x100 + b2) * 0x1_0000 + b1 * 0x100 + b0;
    assert w == ((b3 * 0x100 + b2) * 0x100 + b1) * 0x100 + b0;
    DivModByte((b3 * 0x100 + b2) * 0x100 + b1, b0);
    DivModByte(b3 * 0x100 + b2, b1);
    DivModByte(b3, b2);
    assert w / 0x1_0000 == (w / 0x100) / 0x100;
    assert w / 0x100_0000 == (w / 0x1_0000) / 0x100;
  }

  /** Word 4 of the record: the four state bytes read as one word. */
  function StateBytes(s: PersistentState): (b: seq<byte>)
    ensures |b| == 4
  {
    [s.lastBootedImg, s.requestedBootImg, s.imgBBootable, s.imgABootable]
  }

  /**
   * The record seen as an array of eight 32-bit words, which is how the
   * checksum routine reads the static record.
   */
  function Words(r: Info): (w: seq<u32>)
    ensures |w| == RecordWords
    ensures w[ChecksumIndex] == r.checksum
  {
    [LeWord(r.idstr), r.ver, r.len, r.checksum, LeWord(StateBytes(r.state)),
     r.bootImgAOffset, r.bootImgBOffset, r.recoveryImgOffset]
  }

  // ---------------------------------------------------------------------
  // The byte image on flash

  /** The packed record as the 32 bytes written to flash. */
  function Encode(r: Info): (b: seq<byte>)
    ensures |b| == RecordBytes
  {
    r.idstr + LeBytes(r.ver) + LeBytes(r.len) + LeBytes(r.checksum) + StateBytes(r.state)
      + LeBytes(r.bootImgAOffset) + LeBytes(r.bootImgBOffset) + LeBytes(r.recoveryImgOffset)
  }

  /** The record a 32-byte flash read fills the static record with. */
  function Decode(b: seq<byte>): Info
    requires |b| == RecordBytes
  {
    Info(b[0..4], LeWord(b[4..8]), LeWord(b[8..12]), LeWord(b[12..16]),
         PersistentState(b[16], b[17], b[18], b[19]),
         LeWord(b[20..24]), LeWord(b[24..28]), LeWord(b[28..32]))
  }

  /** Splitting a concatenation where it was joined. */
  lemma SplitAt(p: seq<byte>, x: seq<byte>)
    ensures (p + x)[..|p|] == p && (p + x)[|p|..] == x
  {
  }

  lemma DecodeEncode(r: Info)
    ensures Decode(Encode(r)) == r
  {
    var p1 := r.idstr;
    var p2 := p1 + LeBytes(r.ver);
    var p3 := p2 + LeBytes(r.len);
    var p4 := p3 + LeBytes(r.checksum);
    var p5 := p4 + StateBytes(r.state);
    var p6 := p5 + LeBytes(r.bootImgAOffset);
    var p7 := p6 + LeBytes(r.bootImgBOffset);
    var b := p7 + LeBytes(r.recoveryImgOffset);
    assert b == Encode(r);
    SplitAt(p7, LeBytes(r.recoveryImgOffset));
    SplitAt(p6, LeBytes(r.bootImgBOffset));
    SplitAt(p5, LeBytes(r.bootImgAOffset));
    SplitAt(p4, StateBytes(r.state));
    SplitAt(p3, LeBytes(r.checksum));
    SplitAt(p2, LeBytes(r.len));
    SplitAt(p1, LeBytes(r.ver));
    assert b[28..32] == LeBytes(r.recoveryImgOffset);
    assert b[24..28] == p7[24..28] == LeBytes(r.bootImgBOffset);
    assert b[20..24] == p6[20..24] == LeBytes(r.bootImgAOffset);
    assert b[16..20] == p5[16..20] == StateBytes(r.state);
    assert b[12..16] == p4[12..16] == LeBytes(r.checksum);
    assert b[8..12] == p3[8..12] == LeBytes(r.len);
    assert b[4..8] == p2[4..8] == LeBytes(r.ver);
    assert b[0..4] == p2[0..4] == r.idstr;
    LeWordOfLeBytes(r.ver);
    LeWordOfLeBytes(r.len);
    LeWordOfLeBytes(r.checksum);
    LeWordOfLeBytes(r.bootImgAOffset);
    LeWordOfLeBytes(r.bootImgBOffset);
    LeWordOfLeBytes(r.recoveryImgOffset);
  }

  lemma EncodeDecode(b: seq<byte>)
    requires |b| == RecordBytes
    ensures Encode(Decode(b)) == b
  {
    LeBytesOfLeWord(b[4..8]);
    LeBytesOfLeWord(b[8..12]);
    LeBytesOfLeWord(b[12..16]);
    LeBytesOfLeWord(b[20..24]);
    LeBytesOfLeWord(b[24..28]);
    LeBytesOfLeWord(b[28..32]);
    assert b == b[0..4] + b[4..8] + b[8..12] + b[12..16] + b[16..20]
              + b[20..24] + b[24..28] + b[28..32];
  }

  /** Word i of the checksum view is the little-endian reading of bytes 4i..4i+3 on flash. */
  lemma WordsAreLittleEndianView(r: Info, i: nat)
    requires i < RecordWords
    ensures LeWord(Encode(r)[4 * i..4 * i + 4]) == Words(r)[i]
  {
    var b := Encode(r);
    DecodeEncode(r);
    assert LeWord(b[0..4]) == Words(r)[0];
    assert LeWord(b[16..20]) == Words(r)[4];
  }

  // ---------------------------------------------------------------------
  // Checksum

  /** Sum of words modulo 2^32, accumulated from the front. */
  function Sum(ws: seq<u32>): u32
  {
    if ws == [] then 0 else Add32(Sum(ws[..|ws| - 1]), ws[|ws| - 1])
  }

  lemma {:induction false} SumAppend(a: seq<u32>, b: seq<u32>)
    ensures Sum(a + b) == Add32(Sum(a), Sum(b))
  {
    if b == [] {
      assert a + b == a;
    } else {
      var b', last := b[..|b| - 1], b[|b| - 1];
      assert (a + b)[..|a + b| - 1] == a + b';
      assert (a + b)[|a + b| - 1] == last;
      SumAppend(a, b');
      Add32Assoc(Sum(a), Sum(b'), last);
    }
  }

  /** The sum of every word except the checksum word. */
  function CoveredSum(w: seq<u32>): u32
    requires |w| == RecordWords
  {
    Add32(Sum(w[..ChecksumIndex]), Sum(w[ChecksumIndex + 1..]))
  }

  /** calculate_checksum: 0xFFFFFFFF minus the covered sum, modulo 2^32. */
  function ChecksumOf(r: Info): u32
  {
    Sub32(0xFFFF_FFFF, CoveredSum(Words(r)))
  }

  lemma SumSingleton(x: u32)
    ensures Sum([x]) == x
  {
    assert [x][..0] == [];
  }

  /** The sum of p + [x] + q, regrouped around x. */
  lemma SumAround(p: seq<u32>, x: u32, q: seq<u32>)
    ensures Sum(p + [x] + q) == Add32(Add32(Sum(p), x), Sum(q))
  {
    SumAppend(p + [x], q);
    SumAppend(p, [x]);
    SumSingleton(x);
  }

  lemma SumAroundChecksum(w: seq<u32>)
    requires |w| == RecordWords
    ensures Sum(w) == Add32(CoveredSum(w), w[ChecksumIndex])
  {
    var p, x, q := w[..ChecksumIndex], w[ChecksumIndex], w[ChecksumIndex + 1..];
    assert w == p + [x] + q;
    SumAround(p, x, q);
    Add32Assoc(Sum(p), x, Sum(q));
    Add32Comm(x, Sum(q));
    Add32Assoc(Sum(p), Sum(q), x);
  }

  /** The checksum field takes no part in its own computation. */
  lemma ChecksumIgnoresChecksumField(r: Info, c: u32)
    ensures ChecksumOf(r.(checksum := c)) == ChecksumOf(r)
  {
    var w, w' := Words(r), Words(r.(checksum := c));
    assert w'[..ChecksumIndex] == w[..ChecksumIndex];
    assert w'[ChecksumIndex + 1..] == w[ChecksumIndex + 1..];
  }

  /** A stored checksum matches exactly when all eight words sum to 0xFFFFFFFF. */
  lemma ChecksumMatchesIffWordsSumToAllOnes(r: Info)
    ensures r.checksum == ChecksumOf(r) <==> Sum(Words(r)) == 0xFFFF_FFFF
  {
    var w := Words(r);
    SumAroundChecksum(w);
    Sub32IffAdd32(0xFFFF_FFFF, CoveredSum(w), r.checksum);
  }

  /** Two sequences that differ in exactly one position have different sums. */
  lemma SumDiffersAt(u: seq<u32>, u': seq<u32>, k: nat)
    requires |u| == |u'| && k < |u|
    requires u[..k] == u'[..k] && u[k + 1..] == u'[k + 1..]
    requires u[k] != u'[k]
    ensures Sum(u) != Sum(u')
  {
    var p, q := u[..k], u[k + 1..];
    assert u == p + [u[k]] + q;
    assert u' == p + [u'[k]] + q;
    SumAround(p, u[k], q);
    SumAround(p, u'[k], q);
    if Sum(u) == Sum(u') {
      Add32Cancel(Add32(Sum(p), u[k]), Add32(Sum(p), u'[k]), Sum(q));
      Add32Cancel(u[k], u'[k], Sum(p));
      assert false;
    }
  }

  /**
   * Changing any one covered word, and nothing else, always changes the
   * covered sum: the difference of the two sums is the (non-zero)
   * difference of that word.
   */
  lemma SingleWordChangeChangesCoveredSum(w: seq<u32>, w': seq<u32>, i: nat)
    requires |w| == RecordWords && |w'| == RecordWords
    requires i < RecordWords && i != ChecksumIndex
    requires forall j :: 0 <= j < RecordWords && j != i ==> w[j] == w'[j]
    requires w[i] != w'[i]
    ensures CoveredSum(w) != CoveredSum(w')
  {
    // Both covered sums are the sum of the seven covered words, which differ at one position.
    var u := w[..ChecksumIndex] + w[ChecksumIndex + 1..];
    var u' := w'[..ChecksumIndex] + w'[ChecksumIndex + 1..];
    SumAppend(w[..ChecksumIndex], w[ChecksumIndex + 1..]);
    SumAppend(w'[..ChecksumIndex], w'[ChecksumIndex + 1..]);
    var k := if i < ChecksumIndex then i else i - 1;
    assert forall j :: 0 <= j < 7 ==> u[j] == w[if j < ChecksumIndex then j else j + 1];
    assert forall j :: 0 <= j < 7 ==> u'[j] == w'[if j < ChecksumIndex then j else j + 1];
    assert u[..k] == u'[..k];
    assert u[k + 1..] == u'[k + 1..];
    SumDiffersAt(u, u', k);
  }

  /**
   * Two records whose word views differ in exactly one word other than the
   * checksum word have different checksums: every change confined to one
   * covered word is detected.
   */
  lemma SingleWordChangeChangesChecksum(r: Info, r': Info, i: nat)
    requires i < RecordWords && i != ChecksumIndex
    requires forall j :: 0 <= j < RecordWords && j != i ==> Words(r)[j] == Words(r')[j]
    requires Words(r)[i] != Words(r')[i]
    ensures ChecksumOf(r) != ChecksumOf(r')
  {
    var c, c' := CoveredSum(Words(r)), CoveredSum(Words(r'));
    SingleWordChangeChangesCoveredSum(Words(r), Words(r'), i);
    Sub32IffAdd32(0xFFFF_FFFF, c, ChecksumOf(r));
    Sub32IffAdd32(0xFFFF_FFFF, c', ChecksumOf(r'));
    if ChecksumOf(r) == ChecksumOf(r') {
      Add32Comm(c, ChecksumOf(r));
      Add32Comm(c', ChecksumOf(r));
      Add32Cancel(c, c', ChecksumOf(r));
      assert false;
    }
  }

  // ---------------------------------------------------------------------
  // Validation

  predicate HasMagic(r: Info)
  {
    r.idstr == Magic
  }

  /** validate_boot_img_info returns 0 exactly for these records. */
  predicate IsValid(r: Info)
  {
    HasMagic(r) && r.checksum == ChecksumOf(r)
  }

  /**
   * The static record after validate_boot_img_info: when the magic matches
   * its checksum field is overwritten with the recomputed checksum, whether
   * or not the stored one matched.
   */
  function Validated(r: Info): (r': Info)
    ensures HasMagic(r) ==> r' == r.(checksum := ChecksumOf(r))
    ensures !HasMagic(r) ==> r' == r
    ensures IsValid(r') <==> HasMagic(r)
  {
    if HasMagic(r) then
      ChecksumIgnoresChecksumField(r, ChecksumOf(r));
      r.(checksum := ChecksumOf(r))
    else r
  }

  /** Running validation twice changes nothing more, and a valid record is left unchanged. */
  lemma ValidatedIdempotent(r: Info)
    ensures Validated(Validated(r)) == Validated(r)
    ensures IsValid(r) ==> Validated(r) == r
  {
    if HasMagic(r) {
      ChecksumIgnoresChecksumField(r, ChecksumOf(r));
    }
  }

  /** Contents of a freshly erased flash region. */
  function ErasedRegion(): (b: seq<byte>)
    ensures |b| == RecordBytes
    ensures forall i :: 0 <= i < |b| ==> b[i] == 0xFF
  {
    seq(RecordBytes, _ => 0xFF)
  }

  /**
   * A power loss after the erase and before the write leaves an erased
   * region: reading it back gives a record that fails validation and that
   * validation does not alter.
   */
  lemma ErasedRegionIsCorrupt()
    ensures !IsValid(Decode(ErasedRegion()))
    ensures Validated(Decode(ErasedRegion())) == Decode(ErasedRegion())
  {
    assert Decode(ErasedRegion()).idstr[0] == 0xFF;
  }

  // ---------------------------------------------------------------------
  // Update

  /** Assigning a u32 to a char field keeps its low byte. */
  function LowByte(x: u32): byte
  {
    (x as int % 0x100) as byte
  }

  /**
   * The static record after update_persistent_info has set the three slot
   * fields and recomputed the checksum.
   */
  function Updated(r: Info, slotA: u32, slotB: u32, requestedSlot: u32): (r': Info)
    ensures r'.state.imgABootable == LowByte(slotA)
    ensures r'.state.imgBBootable == LowByte(slotB)
    ensures r'.state.requestedBootImg == LowByte(requestedSlot)
    ensures r'.state.lastBootedImg == r.state.lastBootedImg
    ensures r'.idstr == r.idstr && r'.ver == r.ver && r'.len == r.len
    ensures r'.bootImgAOffset == r.bootImgAOffset && r'.bootImgBOffset == r.bootImgBOffset
    ensures r'.recoveryImgOffset == r.recoveryImgOffset
    ensures r'.checksum == ChecksumOf(r')
  {
    var s := r.state.(imgABootable := LowByte(slotA), imgBBootable := LowByte(slotB),
                      requestedBootImg := LowByte(requestedSlot));
    var r1 := r.(state := s);
    ChecksumIgnoresChecksumField(r1, ChecksumOf(r1));
    r1.(checksum := ChecksumOf(r1))
  }

  lemma LowByteOfFlag(x: u32)
    requires x == 0 || x == 1
    ensures LowByte(x) as u32 == x
  {
  }

  /**
   * Update followed by a flash write and a later read: the record read back
   * from the written bytes passes validation, validation leaves it as it
   * is, and its slot fields are the arguments of the update (for
   * arguments in {0, 1}, the only ones the command lets through).
   */
  lemma UpdateThenReadRoundTrip(r: Info, slotA: u32, slotB: u32, requestedSlot: u32)
    requires HasMagic(r)
    requires slotA <= 1 && slotB <= 1 && requestedSlot <= 1
    ensures var back := Decode(Encode(Updated(r, slotA, slotB, requestedSlot)));
      && IsValid(back)
      && Validated(back) == back
      && back.state.imgABootable as u32 == slotA
      && back.state.imgBBootable as u32 == slotB
      && back.state.requestedBootImg as u32 == requestedSlot
      && back.state.lastBootedImg == r.state.lastBootedImg
  {
    var u := Updated(r, slotA, slotB, requestedSlot);
    DecodeEncode(u);
    ValidatedIdempotent(u);
    LowByteOfFlag(slotA);
    LowByteOfFlag(slotB);
    LowByteOfFlag(requestedSlot);
  }
}
