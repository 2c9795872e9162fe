// The persistent motor calibration: five record layouts in the last two pages
// of flash, loaded with migration, saved in the newest.
module CalibrationStore {
  import opened Octets
  import opened NorFlash
  import opened Crc32
  import opened Records

  const MAGIC: Word := 0x5845_4E43
  const VERSION: nat := 7
  const BASE: nat := 0x7_F000
  const AREA: nat := 0x1000
  const FIRST_PAGE: nat := 254
  const COMMUTATION_BYTES: nat := 256
  const COGGING_BYTES: nat := 1024
  const ENCODER_BYTES: nat := 256

  // Numbers are bit patterns, tables the bytes they are stored as.
  datatype MotorCalibration = MotorCalibration(
    offset: Word, sign: Word,
    commutation: seq<Byte>, commutationValid: bool, residual: Word,
    bemf: Word, bemfValid: bool,
    resistance: Word, resistanceValid: bool,
    inductanceD: Word, inductanceQ: Word, inductanceValid: bool,
    cogging: seq<Byte>, coggingScale: Word, coggingValid: bool,
    encoder: seq<Byte>, encoderScale: Word, encoderValid: bool)
  {
    predicate Ok() {
      |commutation| == COMMUTATION_BYTES && |cogging| == COGGING_BYTES && |encoder| == ENCODER_BYTES
    }
  }

  function ZeroTable(n: nat): (s: seq<Byte>)
    ensures |s| == n
  {
    seq<Byte>(n, _ => 0)
  }

  // A fit good enough to compensate with.
  predicate GoodFit(residual: Word)
  {
    NotNegative(residual) && AtMost(residual, F32_QUARTER)
  }

  // ---- What a stored image means -----------------------------------------------------

  function RecordSize(version: nat): (n: nat)
    requires 3 <= version <= 7
    ensures 44 <= n <= 1608
  {
    if version == 3 then 44 else if version == 4 then 308 else if version == 5 then 312
    else if version == 6 then 1344 else 1608
  }

  // Where the motor parameters start in each layout.
  function ParametersAt(version: nat): (n: nat)
  {
    if version == 3 then 16 else if version == 4 then 276 else 280
  }

  function VersionOf(f: seq<Byte>): (v: nat)
    requires |f| == AREA
  {
    WordAt(f, 4) as int
  }

  // Loading accepts the image: known layout, intact checksum, a sign of one.
  ghost predicate Accepted(f: seq<Byte>)
  {
    && |f| == AREA
    && WordAt(f, 0) == MAGIC && 3 <= VersionOf(f) <= 7
    && Sealed(f[..RecordSize(VersionOf(f))])
    && (WordAt(f, 12) == F32_ONE || WordAt(f, 12) == F32_MINUS_ONE)
  }

  // The calibration an image holds. Features its layout lacks, and fits that
  // are not good enough, are invalid.
  function Decode(f: seq<Byte>): (c: MotorCalibration)
    requires |f| == AREA
    ensures c.Ok()
  {
    var v := VersionOf(f);
    var p := ParametersAt(v);
    MotorCalibration(
      WordAt(f, 8), WordAt(f, 12),
      if v >= 5 then f[16..272] else ZeroTable(COMMUTATION_BYTES),
      v >= 5 && WordAt(f, 272) != 0 && GoodFit(WordAt(f, 276)),
      if v >= 5 then WordAt(f, 276) else 0,
      WordAt(f, p), WordAt(f, p + 4) != 0,
      WordAt(f, p + 8), WordAt(f, p + 12) != 0,
      WordAt(f, p + 16), WordAt(f, if v == 3 then p + 16 else p + 20), WordAt(f, if v == 3 then p + 20 else p + 24) != 0,
      if v >= 6 then f[308..1332] else ZeroTable(COGGING_BYTES),
      if v >= 6 then WordAt(f, 1332) else 0,
      v >= 6 && WordAt(f, 1336) != 0,
      if v >= 7 then f[1340..1596] else ZeroTable(ENCODER_BYTES),
      if v >= 7 then WordAt(f, 1596) else 0,
      v >= 7 && WordAt(f, 1600) != 0 && IsPositive(WordAt(f, 1596)))
  }

  // ---- What saving stores ----------------------------------------------------------------

  function Flag(b: bool): (w: Word)
  {
    if b then 1 else 0
  }

  // The calibration as it will load again.
  function Normal(c: MotorCalibration): (n: MotorCalibration)
  {
    c.(sign := if NotNegative(c.sign) then F32_ONE else F32_MINUS_ONE,
       commutationValid := c.commutationValid && GoodFit(c.residual),
       encoderValid := c.encoderValid && IsPositive(c.encoderScale))
  }

  function Body(c: MotorCalibration): (s: seq<Byte>)
    requires c.Ok()
    ensures |s| == 1604
  {
    var n := Normal(c);
    Words([MAGIC, VERSION as Word, n.offset, n.sign]) + n.commutation
    + Words([Flag(n.commutationValid), n.residual, n.bemf, Flag(n.bemfValid), n.resistance, Flag(n.resistanceValid),
             n.inductanceD, n.inductanceQ, Flag(n.inductanceValid)])
    + n.cogging + Words([n.coggingScale, Flag(n.coggingValid)])
    + n.encoder + Words([n.encoderScale, Flag(n.encoderValid)])
  }

  function Encode(c: MotorCalibration): (f: seq<Byte>)
    requires c.Ok()
    ensures |f| == 1608
  {
    Seal(Body(c))
  }

  function Head(n: MotorCalibration): (ws: seq<Word>)
  {
    [MAGIC, VERSION as Word, n.offset, n.sign]
  }

  function Parameters(n: MotorCalibration): (ws: seq<Word>)
    ensures |ws| == 9
  {
    [Flag(n.commutationValid), n.residual, n.bemf, Flag(n.bemfValid), n.resistance, Flag(n.resistanceValid),
     n.inductanceD, n.inductanceQ, Flag(n.inductanceValid)]
  }

  // The parts of a stored image are where the layout says.
  lemma BodyParts(c: MotorCalibration, f: seq<Byte>)
    requires c.Ok() && |f| == AREA && f[..1608] == Encode(c)
    ensures var n := Normal(c);
      && f[0..16] == Words(Head(n)) && f[16..272] == n.commutation && f[272..308] == Words(Parameters(n))
      && f[308..1332] == n.cogging && f[1332..1340] == Words([n.coggingScale, Flag(n.coggingValid)])
      && f[1340..1596] == n.encoder && f[1596..1604] == Words([n.encoderScale, Flag(n.encoderValid)])
  {
    hide Words, Crc, Normal;
    var n := Normal(c);
    NormalOk(c);
    var a, b, d := Words(Head(n)), Words(Parameters(n)), Words([n.coggingScale, Flag(n.coggingValid)]);
    var e := Words([n.encoderScale, Flag(n.encoderValid)]);
    var s := a + n.commutation + b + n.cogging + d + n.encoder + e;
    assert Body(c) == s;
    assert f[..1604] == s by {
      assert f[..1608][..1604] == Encode(c)[..1604] == s;
    }
    assert forall i, j :: 0 <= i <= j <= 1604 ==> f[i..j] == f[..1604][i..j];
  }

  lemma NormalOk(c: MotorCalibration)
    requires c.Ok()
    ensures Normal(c).Ok()
  {
  }

  // Saving and loading again gives the calibration back in normal form.
  lemma RoundTrip(c: MotorCalibration, f: seq<Byte>)
    requires c.Ok() && |f| == AREA && f[..1608] == Encode(c)
    ensures Accepted(f) && Decode(f) == Normal(c)
  {
    hide Words, WordAt, Sealed, GoodFit, IsPositive, Encode, Body, Decode, NotNegative;
    var n := Normal(c);
    NormalOk(c);
    BodyParts(c, f);
    RoundTripHead(n, f);
    RoundTripParameters(n, f);
    RoundTripTables(n, f);
    RoundTripDecodes(n, f);
    SealSeals(Body(c));
    EncodeSeals(c);
    assert f[..RecordSize(7)] == Encode(c);
  }

  lemma EncodeSeals(c: MotorCalibration)
    requires c.Ok()
    ensures Encode(c) == Seal(Body(c))
  {
  }

  lemma RoundTripDecodes(n: MotorCalibration, f: seq<Byte>)
    requires |f| == AREA && n.Ok()
    requires (n.commutationValid ==> GoodFit(n.residual)) && (n.encoderValid ==> IsPositive(n.encoderScale))
    requires WordAt(f, 4) == VERSION as Word && WordAt(f, 8) == n.offset && WordAt(f, 12) == n.sign
    requires forall i :: 0 <= i < 9 ==> WordAt(f, 272 + 4 * i) == Parameters(n)[i]
    requires WordAt(f, 1332) == n.coggingScale && WordAt(f, 1336) == Flag(n.coggingValid)
    requires WordAt(f, 1596) == n.encoderScale && WordAt(f, 1600) == Flag(n.encoderValid)
    requires f[16..272] == n.commutation && f[308..1332] == n.cogging && f[1340..1596] == n.encoder
    ensures Decode(f) == n
  {
    hide WordAt, GoodFit, IsPositive;
    ParameterWords(n, f);
  }

  // A run of words in an image.
  lemma PieceWords(f: seq<Byte>, start: nat, ws: seq<Word>)
    requires start + 4 * |ws| <= |f| && f[start..start + 4 * |ws|] == Words(ws)
    ensures forall i :: 0 <= i < |ws| ==> WordAt(f, start + 4 * i) == ws[i]
  {
    hide Words, WordAt;
    forall i | 0 <= i < |ws|
      ensures WordAt(f, start + 4 * i) == ws[i]
    {
      WordsAt(ws, i);
      WordInside(f, start, 4 * |ws|, 4 * i);
    }
  }

  lemma RoundTripHead(n: MotorCalibration, f: seq<Byte>)
    requires |f| == AREA && f[0..16] == Words(Head(n))
    ensures WordAt(f, 0) == MAGIC && WordAt(f, 4) == VERSION as Word && WordAt(f, 8) == n.offset && WordAt(f, 12) == n.sign
  {
    hide Words, WordAt;
    HeadWords(f, VERSION, n);
  }

  lemma HeadWords(f: seq<Byte>, version: nat, c: MotorCalibration)
    requires |f| == AREA && version < 8 && f[0..16] == Words([MAGIC, version as Word, c.offset, c.sign])
    ensures WordAt(f, 0) == MAGIC && WordAt(f, 4) == version as Word && WordAt(f, 8) == c.offset && WordAt(f, 12) == c.sign
  {
    hide Words, WordAt;
    var ws := [MAGIC, version as Word, c.offset, c.sign];
    PieceWords(f, 0, ws);
    assert WordAt(f, 0 + 4 * 0) == ws[0] && WordAt(f, 0 + 4 * 1) == ws[1];
    assert WordAt(f, 0 + 4 * 2) == ws[2] && WordAt(f, 0 + 4 * 3) == ws[3];
  }

  lemma RoundTripParameters(n: MotorCalibration, f: seq<Byte>)
    requires |f| == AREA && f[272..308] == Words(Parameters(n))
    ensures forall i :: 0 <= i < 9 ==> WordAt(f, 272 + 4 * i) == Parameters(n)[i]
  {
    hide Words, WordAt, Parameters;
    PieceWords(f, 272, Parameters(n));
  }

  lemma RoundTripTables(n: MotorCalibration, f: seq<Byte>)
    requires |f| == AREA
    requires f[1332..1340] == Words([n.coggingScale, Flag(n.coggingValid)])
    requires f[1596..1604] == Words([n.encoderScale, Flag(n.encoderValid)])
    ensures WordAt(f, 1332) == n.coggingScale && WordAt(f, 1336) == Flag(n.coggingValid)
    ensures WordAt(f, 1596) == n.encoderScale && WordAt(f, 1600) == Flag(n.encoderValid)
  {
    hide Words, WordAt;
    TwoWords(f, 1332, n.coggingScale, Flag(n.coggingValid));
    TwoWords(f, 1596, n.encoderScale, Flag(n.encoderValid));
  }

  lemma TwoWords(f: seq<Byte>, start: nat, a: Word, b: Word)
    requires start + 8 <= |f| && f[start..start + 8] == Words([a, b])
    ensures WordAt(f, start) == a && WordAt(f, start + 4) == b
  {
    hide Words, WordAt;
    var ws := [a, b];
    PieceWords(f, start, ws);
    assert WordAt(f, start + 4 * 0) == ws[0] && WordAt(f, start + 4 * 1) == ws[1];
  }

  // ---- What the older layouts stored -----------------------------------------------------

  // The fields of the four older records, in the order their structures have.
  function OldBody(version: nat, c: MotorCalibration): (s: seq<Byte>)
    requires c.Ok() && 3 <= version <= 6
    ensures |s| == RecordSize(version) - 4
  {
    var head := Words([MAGIC, version as Word, c.offset, c.sign]);
    match version
    case 3 =>
      head + Words([c.bemf, Flag(c.bemfValid), c.resistance, Flag(c.resistanceValid), c.inductanceD, Flag(c.inductanceValid)])
    case 4 =>
      head + c.commutation
      + Words([Flag(c.commutationValid), c.bemf, Flag(c.bemfValid), c.resistance, Flag(c.resistanceValid),
               c.inductanceD, c.inductanceQ, Flag(c.inductanceValid)])
    case 5 => head + c.commutation + Words(Parameters(c))
    case 6 => head + c.commutation + Words(Parameters(c)) + c.cogging + Words([c.coggingScale, Flag(c.coggingValid)])
  }

  // What is left of a calibration in an older record: the parameters all
  // layouts have, and of the rest what the layout has and is good enough.
  function Migrated(version: nat, c: MotorCalibration): (n: MotorCalibration)
    requires c.Ok()
    ensures n.Ok()
  {
    var shared := DEFAULT.(offset := c.offset, sign := c.sign, bemf := c.bemf, bemfValid := c.bemfValid,
                           resistance := c.resistance, resistanceValid := c.resistanceValid,
                           inductanceD := c.inductanceD, inductanceQ := if version == 3 then c.inductanceD else c.inductanceQ,
                           inductanceValid := c.inductanceValid);
    var fitted := if version < 5 then shared
      else shared.(commutation := c.commutation, residual := c.residual,
                   commutationValid := c.commutationValid && GoodFit(c.residual));
    if version < 6 then fitted
    else fitted.(cogging := c.cogging, coggingScale := c.coggingScale, coggingValid := c.coggingValid)
  }

  // Every record the older firmware wrote loads, as what it held.
  lemma Migrates(version: nat, c: MotorCalibration, f: seq<Byte>)
    requires c.Ok() && 3 <= version <= 6 && (c.sign == F32_ONE || c.sign == F32_MINUS_ONE)
    requires |f| == AREA && f[..RecordSize(version)] == Seal(OldBody(version, c))
    ensures Accepted(f) && Decode(f) == Migrated(version, c)
  {
    hide Words, WordAt, Sealed, Seal, GoodFit, IsPositive, OldBody, Decode, Migrated;
    SealSeals(OldBody(version, c));
    OldHead(version, c, f);
    HeadWords(f, version, c);
    match version
    case 3 => MigratesFrom3(c, f);
    case 4 => MigratesFrom4(c, f);
    case 5 => MigratesFrom5(c, f);
    case 6 => MigratesFrom6(c, f);
  }

  lemma SealPrefix(body: seq<Byte>, f: seq<Byte>)
    requires |f| >= |body| + 4 && f[..|body| + 4] == Seal(body)
    ensures f[..|body|] == body
  {
    assert f[..|body| + 4][..|body|] == f[..|body|];
  }

  // The body of an image, and so any part of it.
  lemma OldPart(version: nat, c: MotorCalibration, f: seq<Byte>, from: nat, to: nat)
    requires c.Ok() && 3 <= version <= 6 && |f| == AREA && f[..RecordSize(version)] == Seal(OldBody(version, c))
    requires from <= to <= |OldBody(version, c)|
    ensures f[from..to] == OldBody(version, c)[from..to]
  {
    hide Seal, OldBody;
    var body := OldBody(version, c);
    SealPrefix(body, f);
    assert f[from..to] == f[..|body|][from..to];
  }

  lemma OldHead(version: nat, c: MotorCalibration, f: seq<Byte>)
    requires c.Ok() && 3 <= version <= 6 && |f| == AREA && f[..RecordSize(version)] == Seal(OldBody(version, c))
    ensures f[0..16] == Words([MAGIC, version as Word, c.offset, c.sign])
  {
    hide Words, Seal;
    OldPart(version, c, f, 0, 16);
  }

  lemma MigratesFrom3(c: MotorCalibration, f: seq<Byte>)
    requires c.Ok() && |f| == AREA && f[..RecordSize(3)] == Seal(OldBody(3, c))
    requires WordAt(f, 4) == 3 && WordAt(f, 8) == c.offset && WordAt(f, 12) == c.sign
    ensures Decode(f) == Migrated(3, c)
  {
    hide Words, WordAt, Seal, GoodFit, IsPositive;
    var ws := [c.bemf, Flag(c.bemfValid), c.resistance, Flag(c.resistanceValid), c.inductanceD, Flag(c.inductanceValid)];
    OldPart(3, c, f, 16, 40);
    assert OldBody(3, c)[16..40] == Words(ws);
    PieceWords(f, 16, ws);
    assert WordAt(f, 16 + 4 * 0) == ws[0] && WordAt(f, 16 + 4 * 1) == ws[1] && WordAt(f, 16 + 4 * 2) == ws[2];
    assert WordAt(f, 16 + 4 * 3) == ws[3] && WordAt(f, 16 + 4 * 4) == ws[4] && WordAt(f, 16 + 4 * 5) == ws[5];
  }

  lemma MigratesFrom4(c: MotorCalibration, f: seq<Byte>)
    requires c.Ok() && |f| == AREA && f[..RecordSize(4)] == Seal(OldBody(4, c))
    requires WordAt(f, 4) == 4 && WordAt(f, 8) == c.offset && WordAt(f, 12) == c.sign
    ensures Decode(f) == Migrated(4, c)
  {
    hide Words, WordAt, Seal, GoodFit, IsPositive;
    var ws := [Flag(c.commutationValid), c.bemf, Flag(c.bemfValid), c.resistance, Flag(c.resistanceValid),
               c.inductanceD, c.inductanceQ, Flag(c.inductanceValid)];
    OldPart(4, c, f, 272, 304);
    assert OldBody(4, c)[272..304] == Words(ws);
    PieceWords(f, 272, ws);
    assert WordAt(f, 272 + 4 * 1) == ws[1] && WordAt(f, 272 + 4 * 2) == ws[2] && WordAt(f, 272 + 4 * 3) == ws[3];
    assert WordAt(f, 272 + 4 * 4) == ws[4] && WordAt(f, 272 + 4 * 5) == ws[5] && WordAt(f, 272 + 4 * 6) == ws[6];
    assert WordAt(f, 272 + 4 * 7) == ws[7];
  }

  // What layouts five and six have in common.
  lemma OldParameters(version: nat, c: MotorCalibration, f: seq<Byte>)
    requires c.Ok() && 5 <= version <= 6 && |f| == AREA && f[..RecordSize(version)] == Seal(OldBody(version, c))
    ensures f[16..272] == c.commutation && forall i :: 0 <= i < 9 ==> WordAt(f, 272 + 4 * i) == Parameters(c)[i]
  {
    hide Words, WordAt, Seal, Parameters;
    OldPart(version, c, f, 16, 272);
    OldPart(version, c, f, 272, 308);
    assert OldBody(version, c)[272..308] == Words(Parameters(c));
    PieceWords(f, 272, Parameters(c));
  }

  lemma ParameterWords(c: MotorCalibration, f: seq<Byte>)
    requires |f| == AREA && forall i :: 0 <= i < 9 ==> WordAt(f, 272 + 4 * i) == Parameters(c)[i]
    ensures WordAt(f, 272) == Flag(c.commutationValid) && WordAt(f, 276) == c.residual
    ensures WordAt(f, 280) == c.bemf && WordAt(f, 284) == Flag(c.bemfValid)
    ensures WordAt(f, 288) == c.resistance && WordAt(f, 292) == Flag(c.resistanceValid)
    ensures WordAt(f, 296) == c.inductanceD && WordAt(f, 300) == c.inductanceQ && WordAt(f, 304) == Flag(c.inductanceValid)
  {
    hide WordAt;
    assert WordAt(f, 272 + 4 * 0) == Parameters(c)[0] && WordAt(f, 272 + 4 * 1) == Parameters(c)[1];
    assert WordAt(f, 272 + 4 * 2) == Parameters(c)[2] && WordAt(f, 272 + 4 * 3) == Parameters(c)[3];
    assert WordAt(f, 272 + 4 * 4) == Parameters(c)[4] && WordAt(f, 272 + 4 * 5) == Parameters(c)[5];
    assert WordAt(f, 272 + 4 * 6) == Parameters(c)[6] && WordAt(f, 272 + 4 * 7) == Parameters(c)[7];
    assert WordAt(f, 272 + 4 * 8) == Parameters(c)[8];
  }

  lemma MigratesFrom5(c: MotorCalibration, f: seq<Byte>)
    requires c.Ok() && |f| == AREA && f[..RecordSize(5)] == Seal(OldBody(5, c))
    requires WordAt(f, 4) == 5 && WordAt(f, 8) == c.offset && WordAt(f, 12) == c.sign
    ensures Decode(f) == Migrated(5, c)
  {
    hide Words, WordAt, Seal, GoodFit, IsPositive, OldBody, Parameters;
    OldParameters(5, c, f);
    ParameterWords(c, f);
  }

  lemma MigratesFrom6(c: MotorCalibration, f: seq<Byte>)
    requires c.Ok() && |f| == AREA && f[..RecordSize(6)] == Seal(OldBody(6, c))
    requires WordAt(f, 4) == 6 && WordAt(f, 8) == c.offset && WordAt(f, 12) == c.sign
    ensures Decode(f) == Migrated(6, c)
  {
    hide Words, WordAt, Seal, GoodFit, IsPositive, Parameters;
    OldParameters(6, c, f);
    ParameterWords(c, f);
    OldPart(6, c, f, 308, 1332);
    OldPart(6, c, f, 1332, 1340);
    assert OldBody(6, c)[1332..1340] == Words([c.coggingScale, Flag(c.coggingValid)]);
    TwoWords(f, 1332, c.coggingScale, Flag(c.coggingValid));
  }

  // Loading any accepted image, saving what was loaded and loading that gives
  // the same again: migration loses nothing more.
  lemma LoadSaveLoad(f: seq<Byte>, f': seq<Byte>)
    requires Accepted(f) && |f'| == AREA && f'[..1608] == Encode(Decode(f))
    ensures Accepted(f') && Decode(f') == Decode(f)
  {
    hide Sealed, WordAt;
    RoundTrip(Decode(f), f');
    assert NotNegative(F32_ONE) && !NotNegative(F32_MINUS_ONE);
  }

  // Features newer than the layout load as invalid.
  lemma MigrationInvalidates(f: seq<Byte>)
    requires Accepted(f)
    ensures VersionOf(f) < 7 ==> !Decode(f).encoderValid
    ensures VersionOf(f) < 6 ==> !Decode(f).coggingValid
    ensures VersionOf(f) < 5 ==> !Decode(f).commutationValid
    ensures VersionOf(f) == 3 ==> Decode(f).inductanceD == Decode(f).inductanceQ
    ensures Decode(f).commutationValid ==> GoodFit(Decode(f).residual)
    ensures Decode(f).encoderValid ==> IsPositive(Decode(f).encoderScale)
  {
    hide Sealed, WordAt, GoodFit, IsPositive;
  }

  // No burst of up to 32 bits in a record is accepted, unless it hits the
  // version word and so changes which bytes the checksum covers.
  lemma CorruptionRejected(f: seq<Byte>, f': seq<Byte>, from: nat)
    requires Accepted(f) && |f'| == AREA && f'[4..8] == f[4..8]
    requires var n := RecordSize(VersionOf(f)); Burst(Bits(f[..n]), Bits(f'[..n]), from)
    ensures !Accepted(f')
  {
    hide Sealed, Bits;
    WordInside(f, 4, 4, 0);
    WordInside(f', 4, 4, 0);
    var n := RecordSize(VersionOf(f));
    SealedBurst(f[..n], f'[..n], from);
  }

  predicate IsSign(w: Word)
  {
    FloatEqual(w, F32_ONE) || FloatEqual(w, F32_MINUS_ONE)
  }

  lemma SignPatterns(w: Word)
    ensures IsSign(w) <==> w == F32_ONE || w == F32_MINUS_ONE
  {
  }

  // What the comparison after saving needs: no NaN where a value is compared.
  predicate Comparable(c: MotorCalibration)
  {
    && !IsNan(c.offset)
    && (c.bemfValid ==> !IsNan(c.bemf))
    && (c.resistanceValid ==> !IsNan(c.resistance))
    && (c.inductanceValid ==> !IsNan(c.inductanceD) && !IsNan(c.inductanceQ))
    && (c.coggingValid ==> !IsNan(c.coggingScale))
  }

  const DEFAULT: MotorCalibration := MotorCalibration(0, F32_ONE, ZeroTable(COMMUTATION_BYTES), false, 0, 0, false, 0, false,
                                                      0, 0, false, ZeroTable(COGGING_BYTES), 0, false,
                                                      ZeroTable(ENCODER_BYTES), 0, false)

  class MotorCalibrationStore {
    const flash: Flash

    constructor (flash: Flash)
      ensures this.flash == flash
    {
      this.flash := flash;
    }

    ghost function Area(): (f: seq<Byte>)
      requires flash.Valid()
      reads flash, flash.cells
    {
      flash.cells[BASE..BASE + AREA]
    }

    // The checks common to the five layouts.
    method Check(f: seq<Byte>, size: nat) returns (ok: bool)
      requires |f| == AREA && 44 <= size <= 1608
      ensures ok == (Sealed(f[..size]) && (WordAt(f, 12) == F32_ONE || WordAt(f, 12) == F32_MINUS_ONE))
    {
      hide Sealed, WordAt;
      SignPatterns(WordAt(f, 12));
      var intact := CheckSeal(f[..size]);
      ok := intact && IsSign(WordAt(f, 12));
    }

    method Load() returns (ok: bool, out: MotorCalibration)
      requires flash.Valid()
      ensures ok <==> Accepted(Area())
      ensures ok ==> out == Decode(Area())
    {
      hide WordAt, GoodFit, IsPositive, Sealed;
      out := DEFAULT;
      var f := flash.cells[BASE..BASE + AREA];
      if WordAt(f, 0) != MAGIC {
        return false, out;
      }
      var version := WordAt(f, 4) as int;
      if version == 7 {
        ok := Check(f, 1608);
        if ok {
          out := MotorCalibration(
            WordAt(f, 8), WordAt(f, 12), f[16..272],
            WordAt(f, 272) != 0 && GoodFit(WordAt(f, 276)), WordAt(f, 276),
            WordAt(f, 280), WordAt(f, 284) != 0, WordAt(f, 288), WordAt(f, 292) != 0,
            WordAt(f, 296), WordAt(f, 300), WordAt(f, 304) != 0,
            f[308..1332], WordAt(f, 1332), WordAt(f, 1336) != 0,
            f[1340..1596], WordAt(f, 1596), WordAt(f, 1600) != 0 && IsPositive(WordAt(f, 1596)));
        }
      } else if version == 6 {
        ok := Check(f, 1344);
        if ok {
          out := DEFAULT.(
            offset := WordAt(f, 8), sign := WordAt(f, 12), commutation := f[16..272],
            commutationValid := WordAt(f, 272) != 0 && GoodFit(WordAt(f, 276)), residual := WordAt(f, 276),
            bemf := WordAt(f, 280), bemfValid := WordAt(f, 284) != 0,
            resistance := WordAt(f, 288), resistanceValid := WordAt(f, 292) != 0,
            inductanceD := WordAt(f, 296), inductanceQ := WordAt(f, 300), inductanceValid := WordAt(f, 304) != 0,
            cogging := f[308..1332], coggingScale := WordAt(f, 1332), coggingValid := WordAt(f, 1336) != 0);
        }
      } else if version == 5 {
        ok := Check(f, 312);
        if ok {
          out := DEFAULT.(
            offset := WordAt(f, 8), sign := WordAt(f, 12), commutation := f[16..272],
            commutationValid := WordAt(f, 272) != 0 && GoodFit(WordAt(f, 276)), residual := WordAt(f, 276),
            bemf := WordAt(f, 280), bemfValid := WordAt(f, 284) != 0,
            resistance := WordAt(f, 288), resistanceValid := WordAt(f, 292) != 0,
            inductanceD := WordAt(f, 296), inductanceQ := WordAt(f, 300), inductanceValid := WordAt(f, 304) != 0);
        }
      } else if version == 4 {
        ok := Check(f, 308);
        if ok {
          out := DEFAULT.(
            offset := WordAt(f, 8), sign := WordAt(f, 12), bemf := WordAt(f, 276), bemfValid := WordAt(f, 280) != 0,
            resistance := WordAt(f, 284), resistanceValid := WordAt(f, 288) != 0,
            inductanceD := WordAt(f, 292), inductanceQ := WordAt(f, 296), inductanceValid := WordAt(f, 300) != 0);
        }
      } else if version == 3 {
        ok := Check(f, 44);
        if ok {
          out := DEFAULT.(
            offset := WordAt(f, 8), sign := WordAt(f, 12), bemf := WordAt(f, 16), bemfValid := WordAt(f, 20) != 0,
            resistance := WordAt(f, 24), resistanceValid := WordAt(f, 28) != 0,
            inductanceD := WordAt(f, 32), inductanceQ := WordAt(f, 32), inductanceValid := WordAt(f, 36) != 0);
        }
      } else {
        ok := false;
      }
    }

    // Erases the area and programs the record. Nothing else is touched.
    method Write(record: seq<Byte>) returns (ok: bool)
      requires flash.Valid() && |record| == 1608
      modifies flash, flash.cells
      ensures flash.Valid() && (flash.healthy ==> ok)
      ensures forall i :: 0 <= i < BASE ==> flash.cells[i] == old(flash.cells[i])
      ensures ok ==> Area()[..1608] == record
    {
      ok := ErasePages(flash, FIRST_PAGE, 2);
      if ok {
        ok := ProgramRecord(flash, BASE, record);
        assert flash.cells[BASE..BASE + AREA][..1608] == flash.cells[BASE..BASE + 1608];
      }
    }

    // Saving reports success exactly when flash took it and nothing compared
    // is a NaN; the record then loads as the calibration in normal form.
    method Save(data: MotorCalibration) returns (ok: bool)
      requires flash.Valid() && data.Ok()
      modifies flash, flash.cells
      ensures flash.Valid()
      ensures forall i :: 0 <= i < BASE ==> flash.cells[i] == old(flash.cells[i])
      ensures ok ==> Comparable(data)
      ensures ok ==> Accepted(Area()) && Decode(Area()) == Normal(data)
      ensures flash.healthy && Comparable(data) ==> ok
    {
      hide Body, Accepted, Decode, Crc, Normal;
      var body := Body(data);
      var crc := CrcBytes(body);
      ok := Write(body + RegisterBytes(crc));
      if !ok {
        return;
      }
      RoundTrip(data, Area());
      var loaded, verify := Load();
      ok := loaded && Verified(data, verify);
      VerifiedMeans(data);
    }

    // The comparison of what was loaded back with what was to be saved.
    static predicate Verified(data: MotorCalibration, verify: MotorCalibration)
    {
      var rec := Normal(data);
      && FloatEqual(verify.offset, data.offset) && FloatEqual(verify.sign, rec.sign)
      && verify.commutationValid == rec.commutationValid
      && (!verify.commutationValid
          || (FloatEqual(verify.residual, data.residual) && verify.commutation == data.commutation))
      && verify.bemfValid == data.bemfValid && (!verify.bemfValid || FloatEqual(verify.bemf, data.bemf))
      && verify.resistanceValid == data.resistanceValid
      && (!verify.resistanceValid || FloatEqual(verify.resistance, data.resistance))
      && verify.inductanceValid == data.inductanceValid
      && (!verify.inductanceValid
          || (FloatEqual(verify.inductanceD, data.inductanceD) && FloatEqual(verify.inductanceQ, data.inductanceQ)))
      && verify.coggingValid == rec.coggingValid
      && (!verify.coggingValid
          || (FloatEqual(verify.coggingScale, data.coggingScale) && verify.cogging == data.cogging))
      && verify.encoderValid == rec.encoderValid
      && (!verify.encoderValid
          || (FloatEqual(verify.encoderScale, data.encoderScale) && verify.encoder == data.encoder))
    }

    static lemma VerifiedMeans(data: MotorCalibration)
      ensures Verified(data, Normal(data)) <==> Comparable(data)
    {
    }
  }
}
