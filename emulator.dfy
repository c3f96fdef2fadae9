/** The Emulator value that detection produces, and the classification step
    of Emulator::detect that turns the captured reply into it. The brand
    tables are not part of this model: a brand is a value of the type
    parameter B, Brand::from_csi is the function parameter fromCsi and the
    result of Brand::from_env is the value resort. */
module Emulator {
  import opened Wrappers
  import opened Bytes
  import opened Numbers
  import opened ResponseParser
  import opened ResponseReader

  /** Unknown { kgp, sixel }: what the reply shows when no brand is recognised. */
  datatype UnknownCaps = UnknownCaps(kgp: bool, sixel: bool)

  /** The Emulator struct: the brand or the unknown capabilities, whether the
      background is light, and the cell size in pixels as (width, height). */
  datatype Emulator<B> = Emulator(kind: Either<B, UnknownCaps>, light: bool, cellSize: Option<(U16, U16)>)

  /** ESC _ G i = 3 1 ; O K — the terminal's acknowledgement of the KGP probe. */
  const KgpOk: seq<Byte> := [ESC, 0x5F, 0x47, 0x69, 0x3D, 0x33, 0x31, 0x3B, 0x4F, 0x4B]

  /** "?4;", "?4c", ";4;", ";4c" — Sixel (attribute 4) in a DA1 reply. */
  const SixelMarkers: seq<seq<Byte>> :=
    [[0x3F, 0x34, 0x3B], [0x3F, 0x34, 0x63], [0x3B, 0x34, 0x3B], [0x3B, 0x34, 0x63]]

  /** The kind computed in Emulator::detect: the brand from the reply, else the
      brand from the environment, else the capabilities found in the reply. */
  function Kind<B>(resp: seq<Byte>, fromCsi: seq<Byte> -> Option<B>, resort: Option<B>): Either<B, UnknownCaps>
  {
    match fromCsi(resp).Or(resort)
    case Some(b) => Left(b)
    case None => Right(UnknownCaps(
      kgp := Contains(resp, KgpOk),
      sixel := exists m | m in SixelMarkers :: Contains(resp, m)))
  }

  /** The value Emulator::detect builds from the captured reply; a colour
      report that fails to parse counts as dark (unwrap_or_default). */
  function Snapshot<B>(resp: seq<Byte>, fromCsi: seq<Byte> -> Option<B>, resort: Option<B>): Emulator<B>
  {
    Emulator(Kind(resp, fromCsi, resort), LightBg(resp).UnwrapOr(false), CellSize(resp))
  }

  /** Emulator::unknown, also Emulator::default. */
  function Unknown<B>(): Emulator<B>
  {
    Emulator(Right(UnknownCaps(kgp := false, sixel := false)), false, None)
  }

  /** Emulator::detect after the probe burst is written: read the reply up to
      the DA1 terminator, then classify what was read. */
  method Detect<B>(input: array<Byte>, fromCsi: seq<Byte> -> Option<B>, resort: Option<B>)
    returns (e: Emulator<B>)
    ensures e == Snapshot(Da1Reply(input[..]), fromCsi, resort)
  {
    var resp := ReadUntilDa1(input);
    e := Snapshot(resp, fromCsi, resort);
  }

  /** Brand precedence: a brand recognised in the reply beats the environment's,
      which beats Unknown; Unknown's flags are the substring tests. */
  lemma KindPrecedence<B>(resp: seq<Byte>, fromCsi: seq<Byte> -> Option<B>, resort: Option<B>)
    ensures fromCsi(resp).Some? ==> Kind(resp, fromCsi, resort) == Left(fromCsi(resp).value)
    ensures fromCsi(resp).None? && resort.Some? ==> Kind(resp, fromCsi, resort) == Left(resort.value)
    ensures fromCsi(resp).None? && resort.None? ==>
      Kind(resp, fromCsi, resort) == Right(UnknownCaps(
        kgp := Contains(resp, KgpOk),
        sixel := Contains(resp, [0x3F, 0x34, 0x3B]) || Contains(resp, [0x3F, 0x34, 0x63]) ||
                 Contains(resp, [0x3B, 0x34, 0x3B]) || Contains(resp, [0x3B, 0x34, 0x63])))
  {
  }

  /** Every marker has '4' second, so a reply without the byte '4' never
      reports Sixel. */
  lemma NoSixelWithoutFour(resp: seq<Byte>)
    requires 0x34 !in resp
    ensures forall m :: m in SixelMarkers ==> !Contains(resp, m)
  {
    forall m, i | m in SixelMarkers && 0 <= i <= |resp|
      ensures !OccursAt(resp, m, i)
    {
      if i + |m| <= |resp| {
        assert resp[i + 1] == resp[i..i + |m|][1];
      }
    }
  }

  /** A silent terminal, with no brand from the environment, gives exactly
      Emulator::unknown. */
  lemma SilentTerminalIsUnknown<B>(fromCsi: seq<Byte> -> Option<B>)
    requires fromCsi([]) == None
    ensures Snapshot([], fromCsi, None) == Unknown()
  {
  }

  /** Degraded replies fall back to the conservative defaults: no colour
      report or a malformed one is dark, no size report is no cell size. */
  lemma SnapshotDefaults<B>(resp: seq<Byte>, fromCsi: seq<Byte> -> Option<B>, resort: Option<B>)
    ensures !Contains(resp, BgPrefix) ==> !Snapshot(resp, fromCsi, resort).light
    ensures LightBg(resp).Err? ==> !Snapshot(resp, fromCsi, resort).light
    ensures !Contains(resp, CellSizePrefix) ==> Snapshot(resp, fromCsi, resort).cellSize.None?
  {
  }

  /** ESC _ G i = 3 1 ; O K ESC \ — a KGP acknowledgement. */
  const KgpReply: seq<Byte> := KgpOk + [ESC, 0x5C]

  /** The reply of a terminal that acknowledges KGP and answers DA1 with
      ESC [ ? 6 c, and no recognised brand: the reader stops at its 'c', and
      the kind is Unknown with KGP and without Sixel. */
  lemma KgpWithoutSixel<B>(post: seq<Byte>, fromCsi: seq<Byte> -> Option<B>)
    requires fromCsi(KgpReply + [ESC] + Da1Head + [0x36] + [LOWER_C]) == None
    ensures var resp := KgpReply + [ESC] + Da1Head + [0x36] + [LOWER_C];
      && Da1Reply(resp + post) == resp
      && Kind(resp, fromCsi, None) == Right(UnknownCaps(kgp := true, sixel := false))
  {
    var resp := KgpReply + [ESC] + Da1Head + [0x36] + [LOWER_C];
    assert LOWER_C !in KgpReply;
    NoCNoDa1Stop(KgpReply);
    Da1ReplyAfter(KgpReply, [0x36], post);
    assert OccursAt(resp, KgpOk, 0);
    NoSixelWithoutFour(resp);
  }

  /** The replies to the probes written before DA1, in the order they are
      written: the KGP acknowledgement, the XTVERSION reply ESC P version ESC \,
      the cell-size report ESC [ 6 ; H ; W t and the OSC 11 colour report
      ended by BEL or ESC \. Version and colour fields hold no ESC. */
  function ProbeReplies(version: seq<Byte>, h: U16, w: U16, colour: seq<Byte>, st: seq<Byte>): seq<Byte>
  {
    KgpReply
    + ([ESC, 0x50] + version + [ESC, 0x5C])
    + (CellSizePrefix + ToDecimal(h) + [SEMICOLON] + ToDecimal(w) + [LOWER_T])
    + ([ESC] + BgPrefix + colour + st)
  }

  /** None of the replies that precede DA1 stops the DA1 reader, even when the
      version or the colour fields hold a 'c': the reader keeps them all and
      stops at the DA1 reply's own 'c'. */
  lemma ProbeRepliesKept(version: seq<Byte>, h: U16, w: U16, colour: seq<Byte>, st: seq<Byte>,
                         params: seq<Byte>, post: seq<Byte>)
    requires ESC !in version && ESC !in colour && (st == [0x07] || st == [ESC, 0x5C])
    requires LOWER_C !in params && ESC !in params
    ensures var resp := ProbeReplies(version, h, w, colour, st) + [ESC] + Da1Head + params + [LOWER_C];
      Da1Reply(resp + post) == resp
  {
    assert LOWER_C !in KgpReply;
    NoCNoDa1Stop(KgpReply);
    var xtversion := [ESC, 0x50] + version + [ESC, 0x5C];
    EscStringNoDa1Stop(0x50, version, [ESC, 0x5C]);
    NoDa1StopAppend(KgpReply, xtversion);
    DecimalRoundTrip(h);
    DecimalRoundTrip(w);
    var report := CellSizePrefix + ToDecimal(h) + [SEMICOLON] + ToDecimal(w) + [LOWER_T];
    assert LOWER_C !in report;
    NoCNoDa1Stop(report);
    NoDa1StopAppend(KgpReply + xtversion, report);
    var osc := [ESC] + BgPrefix + colour + st;
    assert osc == [ESC, 0x5D] + (BgPrefix[1..] + colour) + st;
    EscStringNoDa1Stop(0x5D, BgPrefix[1..] + colour, st);
    NoDa1StopAppend(KgpReply + xtversion + report, osc);
    Da1ReplyAfter(ProbeReplies(version, h, w, colour, st), params, post);
  }
}
