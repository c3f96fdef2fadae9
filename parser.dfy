/** The pure parsers of Emulator: the text-area-size report (`cell_size`) and
    the background-colour report (`light_bg`). */
module ResponseParser {
  import opened Wrappers
  import opened Bytes
  import opened Numbers

  // ------------------------------------------------------------- cell size

  /** ESC [ 6 ; — the head of the XTWINOPS reply to ESC [ 16 t. */
  const CellSizePrefix: seq<Byte> := [ESC, 0x5B, 0x36, 0x3B]

  const SEMICOLON: Byte := 0x3B
  const LOWER_T: Byte := 0x74

  /** Emulator::cell_size: after the first ESC [ 6 ;, a digit run H, ';', a
      digit run W and 't'; both runs must parse as u16. The pair is (W, H). */
  function CellSize(resp: seq<Byte>): Option<(U16, U16)>
  {
    match FindFirst(resp, CellSizePrefix)
    case None => None
    case Some(i) =>
      var b := resp[i + |CellSizePrefix|..];
      var hn := DigitRunLength(b);
      if hn >= |b| || b[hn] != SEMICOLON then None
      else
        var rest := b[hn + 1..];
        var wn := DigitRunLength(rest);
        if wn >= |rest| || rest[wn] != LOWER_T then None
        else
          var w := ParseU16(rest[..wn]);
          var h := ParseU16(b[..hn]);
          if w.Some? && h.Some? then Some((w.value, h.value)) else None
  }

  /** resp holds its first ESC [ 6 ; at i, followed by the digit strings hs,
      then ';', then ws, then 't'. */
  ghost predicate CellReportAt(resp: seq<Byte>, i: nat, hs: seq<Byte>, ws: seq<Byte>) {
    && FirstAt(resp, CellSizePrefix, i)
    && AllDigits(hs) && AllDigits(ws)
    && StartsWith(resp[i + |CellSizePrefix|..], hs + [SEMICOLON] + ws + [LOWER_T])
  }

  /** A digit run followed by a non-digit at k is exactly k long. */
  lemma DigitRunStopsAt(s: seq<Byte>, k: nat)
    requires k < |s| && AllDigits(s[..k]) && !IsDigit(s[k])
    ensures DigitRunLength(s) == k
  {
  }

  /** How the two digit runs of CellSize split a well-formed report body. */
  lemma ReportFields(b: seq<Byte>, hs: seq<Byte>, ws: seq<Byte>)
    requires AllDigits(hs) && AllDigits(ws)
    requires StartsWith(b, hs + [SEMICOLON] + ws + [LOWER_T])
    ensures DigitRunLength(b) == |hs| && b[..|hs|] == hs && b[|hs|] == SEMICOLON
    ensures DigitRunLength(b[|hs| + 1..]) == |ws|
    ensures b[|hs| + 1..][..|ws|] == ws && b[|hs| + 1..][|ws|] == LOWER_T
  {
    var report := hs + [SEMICOLON] + ws + [LOWER_T];
    assert b[..|report|] == report;
    forall j | 0 <= j < |hs| ensures b[j] == hs[j] {
      assert b[j] == report[j];
    }
    assert b[..|hs|] == hs;
    assert b[|hs|] == report[|hs|];
    DigitRunStopsAt(b, |hs|);
    var rest := b[|hs| + 1..];
    forall j | 0 <= j < |ws| ensures rest[j] == ws[j] {
      assert rest[j] == report[|hs| + 1 + j];
    }
    assert rest[..|ws|] == ws;
    assert rest[|ws|] == report[|hs| + 1 + |ws|];
    DigitRunStopsAt(rest, |ws|);
  }

  /** The bytes after the first ESC [ 6 ; decide the result: a well-formed
      report gives Some((W, H)) when both fields are nonempty and fit in a
      u16, and None otherwise. A field 0 (or 000) is accepted and gives 0. */
  lemma CellSizeOfReport(resp: seq<Byte>, i: nat, hs: seq<Byte>, ws: seq<Byte>)
    requires CellReportAt(resp, i, hs, ws)
    ensures CellSize(resp) ==
      if 0 < |hs| && 0 < |ws| && DecimalValue(hs) <= U16_MAX && DecimalValue(ws) <= U16_MAX
      then Some((DecimalValue(ws), DecimalValue(hs)))
      else None
  {
    var k := FindFirst(resp, CellSizePrefix).value;
    FirstAtUnique(resp, CellSizePrefix, i, k);
    ReportFields(resp[i + |CellSizePrefix|..], hs, ws);
  }

  /** Whatever CellSize returns comes from a well-formed report at the first
      ESC [ 6 ;, with nonempty fields: it never guesses a partial value. */
  lemma CellSizeSound(resp: seq<Byte>)
    ensures CellSize(resp).Some? ==>
      exists i: nat, hs: seq<Byte>, ws: seq<Byte> :: CellReportAt(resp, i, hs, ws) && 0 < |hs| && 0 < |ws| &&
        CellSize(resp).value == (DecimalValue(ws), DecimalValue(hs))
  {
    if CellSize(resp).Some? {
      var i := FindFirst(resp, CellSizePrefix).value;
      var b := resp[i + |CellSizePrefix|..];
      var hn := DigitRunLength(b);
      var rest := b[hn + 1..];
      var wn := DigitRunLength(rest);
      var hs, ws := b[..hn], rest[..wn];
      var report := hs + [SEMICOLON] + ws + [LOWER_T];
      assert b[..|report|] == report by {
        forall j | 0 <= j < |report|
          ensures b[j] == report[j]
        {
          if j > hn {
            assert b[j] == rest[j - hn - 1];
          }
        }
      }
      assert CellReportAt(resp, i, hs, ws);
    }
  }

  /** Appending bytes keeps a report where it was, and still first. */
  lemma CellReportExtends(a: seq<Byte>, b: seq<Byte>, i: nat, hs: seq<Byte>, ws: seq<Byte>)
    requires CellReportAt(a, i, hs, ws)
    ensures CellReportAt(a + b, i, hs, ws)
  {
    var p := CellSizePrefix;
    var report := hs + [SEMICOLON] + ws + [LOWER_T];
    var ab := a + b;
    assert ab[i..i + |p|] == a[i..i + |p|];
    forall j | 0 <= j < i
      ensures !OccursAt(ab, p, j)
    {
      assert ab[j..j + |p|] == a[j..j + |p|];
      assert !OccursAt(a, p, j);
    }
    assert ab[i + |p|..][..|report|] == a[i + |p|..][..|report|];
  }

  /** Only the first report counts: anything appended after a response that
      already yields a cell size, a second report included, is ignored. */
  lemma CellSizeFirstWins(a: seq<Byte>, b: seq<Byte>)
    requires CellSize(a).Some?
    ensures CellSize(a + b) == CellSize(a)
  {
    CellSizeSound(a);
    var i: nat, hs: seq<Byte>, ws: seq<Byte> :| CellReportAt(a, i, hs, ws);
    CellReportExtends(a, b, i, hs, ws);
    CellSizeOfReport(a + b, i, hs, ws);
    CellSizeOfReport(a, i, hs, ws);
  }

  /** A report after ESC-free bytes is the one parsed, whatever follows it. */
  lemma CellSizeAfterEscFree(pre: seq<Byte>, hs: seq<Byte>, ws: seq<Byte>, post: seq<Byte>)
    requires ESC !in pre && AllDigits(hs) && AllDigits(ws)
    ensures CellSize(pre + CellSizePrefix + hs + [SEMICOLON] + ws + [LOWER_T] + post) ==
      if 0 < |hs| && 0 < |ws| && DecimalValue(hs) <= U16_MAX && DecimalValue(ws) <= U16_MAX
      then Some((DecimalValue(ws), DecimalValue(hs)))
      else None
  {
    var p := CellSizePrefix;
    var body := hs + [SEMICOLON] + ws + [LOWER_T];
    var resp := pre + p + hs + [SEMICOLON] + ws + [LOWER_T] + post;
    assert resp == pre + p + (body + post);
    FirstAfterEscFree(pre, p, body + post);
    assert resp[|pre| + |p|..] == body + post;
    assert (body + post)[..|body|] == body;
    CellSizeOfReport(resp, |pre|, hs, ws);
  }

  /** What a terminal writes for H = h, W = w is read back as (w, h). */
  lemma CellSizeReadsBack(pre: seq<Byte>, h: U16, w: U16, post: seq<Byte>)
    requires ESC !in pre
    ensures CellSize(pre + CellSizePrefix + ToDecimal(h) + [SEMICOLON] + ToDecimal(w) + [LOWER_T] + post)
            == Some((w, h))
  {
    DecimalRoundTrip(h);
    DecimalRoundTrip(w);
    CellSizeAfterEscFree(pre, ToDecimal(h), ToDecimal(w), post);
  }

  /** ESC [ 6 ; 0 ; 0 t: a zero field is not rejected, it reads as 0. */
  lemma CellSizeZeroAccepted()
    ensures CellSize([ESC, 0x5B, 0x36, 0x3B, 0x30, SEMICOLON, 0x30, LOWER_T]) == Some((0, 0))
  {
    CellSizeReadsBack([], 0, 0, []);
    assert [ESC, 0x5B, 0x36, 0x3B, 0x30, SEMICOLON, 0x30, LOWER_T] ==
      [] + CellSizePrefix + ToDecimal(0) + [SEMICOLON] + ToDecimal(0) + [LOWER_T] + [];
  }

  /** ESC [ 6 ; 7 0 0 0 0 ; 1 0 t: a height above u16::MAX gives no cell size. */
  lemma CellSizeOverflowRejected()
    ensures CellSize([ESC, 0x5B, 0x36, 0x3B, 0x37, 0x30, 0x30, 0x30, 0x30, SEMICOLON, 0x31, 0x30, LOWER_T]) == None
  {
    var hs: seq<Byte> := [0x37, 0x30, 0x30, 0x30, 0x30];
    var ws: seq<Byte> := [0x31, 0x30];
    var body := hs + [SEMICOLON] + ws + [LOWER_T];
    DecimalRoundTrip(70000);
    assert ToDecimal(70000) == hs;
    var resp := [ESC, 0x5B, 0x36, 0x3B, 0x37, 0x30, 0x30, 0x30, 0x30, SEMICOLON, 0x31, 0x30, LOWER_T];
    assert resp == [] + CellSizePrefix + body;
    FirstAfterEscFree([], CellSizePrefix, body);
    assert resp[|CellSizePrefix|..] == body;
    CellSizeOfReport(resp, 0, hs, ws);
  }

  // ------------------------------------------------------------ background

  /** ] 1 1 ; r g b : — the head of the OSC 11 reply to ESC ] 11 ; ? BEL. */
  const BgPrefix: seq<Byte> := [0x5D, 0x31, 0x31, 0x3B, 0x72, 0x67, 0x62, 0x3A]

  /** The length of RRRR/GGGG/BBBB: a shorter tail after the prefix counts as no report. */
  const BgFieldsLength: nat := 14

  /** Which two-byte field failed u8::from_str_radix. */
  datatype BgError = InvalidHex(offset: nat)

  /** luma = r*0.2627/256 + g*0.6780/256 + b*0.0593/256 > 0.6, scaled by 256 * 10000. */
  predicate IsLight(r: Byte, g: Byte, b: Byte) {
    r * 2627 + g * 6780 + b * 593 > 1536000
  }

  /** Emulator::light_bg: after the first ]11;rgb: with at least 14 bytes
      following, the two-byte hex fields at offsets 0, 5 and 10 are red,
      green and blue; a missing or short report is dark, a bad field an error. */
  function LightBg(resp: seq<Byte>): Result<bool, BgError>
  {
    match FindFirst(resp, BgPrefix)
    case None => Ok(false)
    case Some(i) =>
      var s := resp[i + |BgPrefix|..];
      if |s| < BgFieldsLength then Ok(false)
      else LightFromFields(s[0..2], s[5..7], s[10..12])
  }

  /** The three u8::from_str_radix calls, in order, then the luma test. */
  function LightFromFields(red: seq<Byte>, green: seq<Byte>, blue: seq<Byte>): Result<bool, BgError>
  {
    var r := ParseHexU8(red);
    if r.None? then Err(InvalidHex(0))
    else
      var g := ParseHexU8(green);
      if g.None? then Err(InvalidHex(5))
      else
        var b := ParseHexU8(blue);
        if b.None? then Err(InvalidHex(10))
        else Ok(IsLight(r.value, g.value, b.value))
  }

  /** Without a complete report (prefix present and 14 bytes after its first
      occurrence) the answer is Ok(false): dark, and never an error. */
  lemma LightBgDarkByDefault(resp: seq<Byte>)
    ensures LightBg(resp) != Ok(false) ==>
      exists i: nat :: FirstAt(resp, BgPrefix, i) && i + |BgPrefix| + BgFieldsLength <= |resp|
  {
    if LightBg(resp) != Ok(false) {
      var i := FindFirst(resp, BgPrefix).value;
      assert FirstAt(resp, BgPrefix, i);
    }
  }

  /** The value of the two hex digits at s[k], s[k+1]. */
  ghost function Channel(s: seq<Byte>, k: nat): nat
    requires k + 2 <= |s| && IsHexDigit(s[k]) && IsHexDigit(s[k + 1])
  {
    HexDigitValue(s[k]) * 16 + HexDigitValue(s[k + 1])
  }

  /** Only the high byte of each channel counts: with hex digits at offsets
      0-1, 5-6 and 10-11 after the first prefix, the result is the luma test
      on those three bytes. */
  lemma LightBgOfReport(resp: seq<Byte>, i: nat)
    requires FirstAt(resp, BgPrefix, i) && i + |BgPrefix| + BgFieldsLength <= |resp|
    requires var s := resp[i + |BgPrefix|..];
      IsHexDigit(s[0]) && IsHexDigit(s[1]) && IsHexDigit(s[5]) && IsHexDigit(s[6]) &&
      IsHexDigit(s[10]) && IsHexDigit(s[11])
    ensures var s := resp[i + |BgPrefix|..];
      LightBg(resp) == Ok(Channel(s, 0) * 2627 + Channel(s, 5) * 6780 + Channel(s, 10) * 593 > 1536000)
  {
    var k := FindFirst(resp, BgPrefix).value;
    FirstAtUnique(resp, BgPrefix, i, k);
    var s := resp[i + |BgPrefix|..];
    ParseHexPair(s[0..2]);
    ParseHexPair(s[5..7]);
    ParseHexPair(s[10..12]);
  }

  /** With a complete first report at i, the three fields are read at fixed
      offsets 0, 5 and 10 after the prefix. */
  lemma LightBgAt(resp: seq<Byte>, i: nat)
    requires FirstAt(resp, BgPrefix, i) && i + |BgPrefix| + BgFieldsLength <= |resp|
    ensures LightBg(resp) ==
      LightFromFields(resp[i + 8..i + 10], resp[i + 13..i + 15], resp[i + 18..i + 20])
  {
    var k := FindFirst(resp, BgPrefix).value;
    FirstAtUnique(resp, BgPrefix, i, k);
    var s := resp[i + 8..];
    assert s[0..2] == resp[i + 8..i + 10];
    assert s[5..7] == resp[i + 13..i + 15];
    assert s[10..12] == resp[i + 18..i + 20];
  }

  /** With a complete first report at i, the fields are parsed red, green,
      blue, and the first one that u8::from_str_radix rejects is the error;
      the result is Ok exactly when all three parse. */
  lemma LightBgErrors(resp: seq<Byte>, i: nat)
    requires FirstAt(resp, BgPrefix, i) && i + |BgPrefix| + BgFieldsLength <= |resp|
    ensures var red, green, blue := resp[i + 8..i + 10], resp[i + 13..i + 15], resp[i + 18..i + 20];
      && (LightBg(resp).Err? <==>
            ParseHexU8(red).None? || ParseHexU8(green).None? || ParseHexU8(blue).None?)
      && (ParseHexU8(red).None? ==> LightBg(resp) == Err(InvalidHex(0)))
      && (ParseHexU8(red).Some? && ParseHexU8(green).None? ==> LightBg(resp) == Err(InvalidHex(5)))
      && (ParseHexU8(red).Some? && ParseHexU8(green).Some? && ParseHexU8(blue).None? ==>
            LightBg(resp) == Err(InvalidHex(10)))
  {
    LightBgAt(resp, i);
  }

  /** Two responses whose first reports agree on the three colour fields get
      the same answer, whatever else they hold. */
  lemma LightBgFieldsOnly(a: seq<Byte>, i: nat, b: seq<Byte>, j: nat)
    requires FirstAt(a, BgPrefix, i) && i + |BgPrefix| + BgFieldsLength <= |a|
    requires FirstAt(b, BgPrefix, j) && j + |BgPrefix| + BgFieldsLength <= |b|
    requires a[i + 8..i + 10] == b[j + 8..j + 10]
    requires a[i + 13..i + 15] == b[j + 13..j + 15]
    requires a[i + 18..i + 20] == b[j + 18..j + 20]
    ensures LightBg(a) == LightBg(b)
  {
    LightBgAt(a, i);
    LightBgAt(b, j);
  }

  /** rgb:ffff/ffff/ffff (white) is light. */
  lemma WhiteIsLight()
    ensures LightBg(BgPrefix + [0x66, 0x66, 0x66, 0x66, 0x2F, 0x66, 0x66, 0x66, 0x66, 0x2F, 0x66, 0x66, 0x66, 0x66]) == Ok(true)
  {
    var resp := BgPrefix + [0x66, 0x66, 0x66, 0x66, 0x2F, 0x66, 0x66, 0x66, 0x66, 0x2F, 0x66, 0x66, 0x66, 0x66];
    assert FirstAt(resp, BgPrefix, 0) by { assert resp[0..8] == BgPrefix; }
    LightBgOfReport(resp, 0);
  }

  /** rgb:0000/0000/0000 (black) is dark. */
  lemma BlackIsDark()
    ensures LightBg(BgPrefix + [0x30, 0x30, 0x30, 0x30, 0x2F, 0x30, 0x30, 0x30, 0x30, 0x2F, 0x30, 0x30, 0x30, 0x30]) == Ok(false)
  {
    var resp := BgPrefix + [0x30, 0x30, 0x30, 0x30, 0x2F, 0x30, 0x30, 0x30, 0x30, 0x2F, 0x30, 0x30, 0x30, 0x30];
    assert FirstAt(resp, BgPrefix, 0) by { assert resp[0..8] == BgPrefix; }
    LightBgOfReport(resp, 0);
  }
}
