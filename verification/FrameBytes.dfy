/** The exchange frame byte by byte: why a frame is refused and with which code, what an accepted one says, what a
    built one holds, and that no change within two adjacent bytes gets through. */
module FrameBytes {
  import opened Bytes
  import opened Frame
  import Crc

  // ---------- which frames are refused, on their bytes ----------

  /** The CRC field is the CRC of what precedes it. */
  predicate CrcGood(f: seq<byte>)
    requires |f| >= 26
  {
    256 * f[|f| - 2] as int + f[|f| - 1] as int == CrcOf(f[..|f| - 2])
  }

  /** The hash of the gateway, over L6, with the addresses as the counter block. */
  function GatewayHash(f: seq<byte>, crypto: Crypto): Option<seq<byte>>
    requires |f| >= 26
  {
    crypto.mac(f[11..|f| - 4], f[2..10] + [0, 0, 0, 0, 0, 0, 0, 0], 17)
  }

  /** The hash of the head-end, over L7, with the addresses and the counter of the frame. */
  function HeadEndHash(f: seq<byte>, crypto: Crypto): Option<seq<byte>>
    requires |f| >= 26
  {
    crypto.mac(f[16..|f| - 10], f[2..10] + f[13..15] + [0, 0, 0, 0, 0, 0], f[11] as int % 16)
  }

  /** L7 deciphered, with the addresses, the counter and the control field of the link layer. */
  function Plain(f: seq<byte>, crypto: Crypto): Option<seq<byte>>
    requires |f| >= 26
  {
    crypto.decrypt(f[16..|f| - 10], f[2..10] + f[13..15] + [f[1]] + [0, 0, 0, 0, 0], f[11] as int % 16)
  }

  /** What can be wrong with a frame, the first to be found first. */
  datatype Defect = OtherAddress | OtherMaker | BadCrc | OtherProtocol | OtherVersion | OtherNetwork | OtherKind
    | NoHeadEndHash | BadHeadEndHash | NoGatewayHash | BadGatewayHash | NoPlain

  function Rank(x: Defect): nat {
    match x
    case OtherAddress => 0 case OtherMaker => 1 case BadCrc => 2 case OtherProtocol => 3 case OtherVersion => 4
    case OtherNetwork => 5 case OtherKind => 6 case NoHeadEndHash => 7 case BadHeadEndHash => 8 case NoGatewayHash => 9
    case BadGatewayHash => 10 case NoPlain => 11
  }

  function Answer(x: Defect): Code {
    match x
    case OtherAddress => FramePassed
    case OtherMaker => FramePassed
    case BadCrc => FrameCrc
    case OtherProtocol => ProtoUnknown
    case OtherVersion => ProtoUnknown
    case OtherNetwork => NetIdUnknown
    case OtherKind => FrameUnknown
    case NoHeadEndHash => InternalHash
    case BadHeadEndHash => HeadEndAuth
    case NoGatewayHash => InternalHash
    case BadGatewayHash => GatewayAuth
    case NoPlain => InternalCiph
  }

  /** The frame has that defect, and the filter for it is on. Without a key nobody looks at the head-end's hash,
      and nothing is deciphered. */
  predicate Has(cfg: Config, d: Device, f: seq<byte>, recvData: bool, crypto: Crypto, x: Defect)
    requires |f| >= 26
  {
    var keyed := f[11] % 16 != 0;
    match x
    case OtherAddress => !cfg.aFieldOff && f[4..10] != d.addr
    case OtherMaker => !cfg.mFieldOff && f[2..4] != d.manuf
    case BadCrc => !cfg.crcOff && !CrcGood(f)
    case OtherProtocol => !cfg.ciFieldOff && f[10] != 0x20
    case OtherVersion => !(32 <= f[11] < 64)
    case OtherNetwork => !cfg.netIdOff && f[12] != cfg.netId
    case OtherKind => !(f[1] in {0x06, 0x43} || (recvData && f[1] in {0x44, 0x54}))
    case NoHeadEndHash => keyed && !cfg.kencOff && HeadEndHash(f, crypto).None?
    case BadHeadEndHash =>
      keyed && !cfg.kencOff && HeadEndHash(f, crypto).Some? && !(f[|f| - 10..|f| - 6] <= HeadEndHash(f, crypto).value)
    case NoGatewayHash => !cfg.kmacOff && GatewayHash(f, crypto).None?
    case BadGatewayHash => !cfg.kmacOff && GatewayHash(f, crypto).Some? && !(f[|f| - 4..|f| - 2] <= GatewayHash(f, crypto).value)
    case NoPlain => keyed && Plain(f, crypto).None?
  }

  /** It has that one, and of those from the given rank on none that is found before. */
  ghost predicate HasFirst(cfg: Config, d: Device, f: seq<byte>, recvData: bool, crypto: Crypto, from: nat, x: Defect)
    requires |f| >= 26
  {
    && Has(cfg, d, f, recvData, crypto, x) && Rank(x) >= from
    && forall y :: Rank(y) >= from && Has(cfg, d, f, recvData, crypto, y) ==> Rank(x) <= Rank(y)
  }

  /** The counter blocks, on the bytes of the frame. */
  lemma BlocksOnBytes(f: seq<byte>)
    requires |f| >= 26
    ensures MacBlock(Sender(f)) == f[2..10] + [0, 0, 0, 0, 0, 0, 0, 0]
    ensures EncBlock(Sender(f), f[13..15]) == f[2..10] + f[13..15] + [0, 0, 0, 0, 0, 0]
    ensures CipherBlock(Sender(f), f[13..15], f[1]) == f[2..10] + f[13..15] + [f[1]] + [0, 0, 0, 0, 0]
  {
    assert f[2..4] + f[4..10] == f[2..10];
    assert Zeros(8) == [0, 0, 0, 0, 0, 0, 0, 0] && Zeros(6) == [0, 0, 0, 0, 0, 0] && Zeros(5) == [0, 0, 0, 0, 0];
  }

  /** A field of n bytes is the beginning of a hash. */
  lemma FieldIsPrefix(h: seq<byte>, field: seq<byte>, n: nat)
    requires |field| == n <= |h|
    ensures h[..n] == field <==> field <= h
  {
  }

  lemma ScreenedOnBytes(cfg: Config, d: Device, f: seq<byte>, recvData: bool, crypto: Crypto)
    requires |f| >= 26
    ensures Screened(cfg, d, f, recvData) == Success <==> forall x :: Rank(x) < 7 ==> !Has(cfg, d, f, recvData, crypto, x)
    ensures Screened(cfg, d, f, recvData) != Success ==>
      exists x :: HasFirst(cfg, d, f, recvData, crypto, 0, x) && Rank(x) < 7 && Answer(x) == Screened(cfg, d, f, recvData)
  {
    hide CrcOf;
    assert f[11] / 32 == 1 <==> 32 <= f[11] < 64;
    var c := Screened(cfg, d, f, recvData);
    if c != Success {
      var x := if !cfg.aFieldOff && f[4..10] != d.addr then OtherAddress
        else if !cfg.mFieldOff && f[2..4] != d.manuf then OtherMaker
        else if !cfg.crcOff && !CrcGood(f) then BadCrc
        else if !cfg.ciFieldOff && f[10] != 0x20 then OtherProtocol
        else if !(32 <= f[11] < 64) then OtherVersion
        else if !cfg.netIdOff && f[12] != cfg.netId then OtherNetwork
        else OtherKind;
      assert HasFirst(cfg, d, f, recvData, crypto, 0, x) && Answer(x) == c && Rank(x) < 7;
    }
  }

  lemma KmacOnBytes(cfg: Config, d: Device, f: seq<byte>, recvData: bool, crypto: Crypto)
    requires |f| >= 26 && Sound(crypto)
    ensures KmacChecked(cfg, f, crypto) == if Has(cfg, d, f, recvData, crypto, NoGatewayHash) then InternalHash
      else if Has(cfg, d, f, recvData, crypto, BadGatewayHash) then GatewayAuth else Success
  {
    hide MacBlock;
    BlocksOnBytes(f);
    var h := GatewayHash(f, crypto);
    if h.Some? {
      FieldIsPrefix(h.value, f[|f| - 4..|f| - 2], 2);
    }
  }

  lemma KencOnBytes(cfg: Config, d: Device, f: seq<byte>, recvData: bool, crypto: Crypto)
    requires |f| >= 26 && Sound(crypto) && f[11] % 16 != 0
    ensures KencChecked(cfg, f, crypto) == if Has(cfg, d, f, recvData, crypto, NoHeadEndHash) then InternalHash
      else if Has(cfg, d, f, recvData, crypto, BadHeadEndHash) then HeadEndAuth else Success
  {
    hide EncBlock;
    BlocksOnBytes(f);
    var h := HeadEndHash(f, crypto);
    if h.Some? {
      FieldIsPrefix(h.value, f[|f| - 10..|f| - 6], 4);
    }
  }

  lemma OpenedOnBytes(cfg: Config, d: Device, f: seq<byte>, recvData: bool, crypto: Crypto)
    requires |f| >= 26 && Sound(crypto)
    ensures Opened(cfg, f, crypto).Ok? <==> forall x :: Rank(x) >= 7 ==> !Has(cfg, d, f, recvData, crypto, x)
    ensures Opened(cfg, f, crypto).Err? ==>
      exists x :: HasFirst(cfg, d, f, recvData, crypto, 7, x) && Answer(x) == Opened(cfg, f, crypto).code
    ensures Opened(cfg, f, crypto).Ok? && f[11] % 16 != 0 ==> Plain(f, crypto) == Some(Opened(cfg, f, crypto).value)
    ensures Opened(cfg, f, crypto).Ok? && f[11] % 16 == 0 ==> Opened(cfg, f, crypto).value == f[16..|f| - 10]
  {
    hide KmacChecked, KencChecked, CipherBlock, CrcGood;
    BlocksOnBytes(f);
    KmacOnBytes(cfg, d, f, recvData, crypto);
    if f[11] % 16 != 0 {
      KencOnBytes(cfg, d, f, recvData, crypto);
    }
    var r := Opened(cfg, f, crypto);
    if r.Err? {
      var x := if Has(cfg, d, f, recvData, crypto, NoHeadEndHash) then NoHeadEndHash
        else if Has(cfg, d, f, recvData, crypto, BadHeadEndHash) then BadHeadEndHash
        else if Has(cfg, d, f, recvData, crypto, NoGatewayHash) then NoGatewayHash
        else if Has(cfg, d, f, recvData, crypto, BadGatewayHash) then BadGatewayHash
        else NoPlain;
      assert HasFirst(cfg, d, f, recvData, crypto, 7, x) && Answer(x) == r.code;
    }
  }

  /** A frame is accepted if and only if it has no defect at all, and a refused one is answered with the code of the
      first defect that it has; so with the code of its only one, if it has just one. */
  lemma RefusedForDefects(cfg: Config, d: Device, f: seq<byte>, clock: nat, recvData: bool, crypto: Crypto)
    requires |f| >= 26 && Sound(crypto)
    ensures Parsed(cfg, d, f, clock, recvData, crypto).Ok? <==> forall x :: !Has(cfg, d, f, recvData, crypto, x)
    ensures Parsed(cfg, d, f, clock, recvData, crypto).Err? ==>
      exists x :: HasFirst(cfg, d, f, recvData, crypto, 0, x) && Answer(x) == Parsed(cfg, d, f, clock, recvData, crypto).code
  {
    hide Screened, Opened, Filled, Has, Rank, Answer;
    ScreenedOnBytes(cfg, d, f, recvData, crypto);
    OpenedOnBytes(cfg, d, f, recvData, crypto);
    if Screened(cfg, d, f, recvData) == Success && Opened(cfg, f, crypto).Err? {
      var x :| HasFirst(cfg, d, f, recvData, crypto, 7, x) && Answer(x) == Opened(cfg, f, crypto).code;
      assert HasFirst(cfg, d, f, recvData, crypto, 0, x);
    }
  }

  /** The message of an accepted frame, on its bytes. */
  lemma AcceptedMessage(cfg: Config, d: Device, f: seq<byte>, clock: nat, recvData: bool, crypto: Crypto)
    requires |f| >= 26 && Sound(crypto) && Parsed(cfg, d, f, clock, recvData, crypto).Ok?
    ensures f[1] == 0x43 || f[1] == 0x06 || (recvData && (f[1] == 0x44 || f[1] == 0x54))
    ensures var m, n := Parsed(cfg, d, f, clock, recvData, crypto).value, |f|;
      && m.app == (if f[1] == 0x06 then Install else if f[1] == 0x43 then Admin else if f[1] == 0x44 then Data else DataPrio)
      && m.id == 256 * f[13] as int + f[14] as int && m.keyId == f[11] as int % 16
      && m.stamp == 256 * f[n - 6] as int + f[n - 5] as int
      && m.epoch == if f[1] == 0x06 then ((f[n - 10] as int * 256 + f[n - 9] as int) * 256 + f[n - 8] as int) * 256 + f[n - 7] as int else clock
    ensures f[11] % 16 != 0 ==> Plain(f, crypto).Some?
    ensures Parsed(cfg, d, f, clock, recvData, crypto).value.data ==
      (if f[1] == 0x44 || f[1] == 0x54 then [f[15]] else []) + if f[11] % 16 == 0 then f[16..|f| - 10] else Plain(f, crypto).value
  {
    hide Opened, Plain, CrcOf;
    OpenedOnBytes(cfg, d, f, recvData, crypto);
    assert Screened(cfg, d, f, recvData) == Success;
    assert [] + Opened(cfg, f, crypto).value == Opened(cfg, f, crypto).value;
  }

  // ---------- every built frame, on its bytes ----------

  lemma BuiltParts(cfg: Config, d: Device, m: Message, now: nat, crypto: Crypto) returns (f: seq<byte>)
    requires d.Valid() && m.Valid() && Sound(crypto) && Built(cfg, d, m, now, crypto).Ok?
    ensures f == Built(cfg, d, m, now, crypto).value && |f| >= 26 && m.app != Download && m.app != Unknown
    ensures Sent(d, m, crypto).Some? && Kenc(d, m, Sent(d, m, crypto).value, crypto).Some?
    ensures var body := Sent(d, m, crypto).value;
      var h := Kenc(d, m, body, crypto).value;
      var k := Kmac(cfg, d, m, body, h[..4], Stamp(now), crypto);
      k.Some? && Carries(f, cfg, d, m, body, h[..4], Stamp(now), k.value[..2])
  {
    hide CrcOf, L6App, WithCrc, Assembled, BuiltHeaders, MacInput, Carries, Cfield;
    var body := Sent(d, m, crypto).value;
    var h := Kenc(d, m, body, crypto).value;
    var k := Kmac(cfg, d, m, body, h[..4], Stamp(now), crypto).value;
    f := Built(cfg, d, m, now, crypto).value;
    BuiltCarries(cfg, d, m, body, h[..4], Stamp(now), k[..2]);
  }

  /** Where each field of a built frame is, and what it holds. */
  lemma BuiltOnBytes(cfg: Config, d: Device, m: Message, now: nat, crypto: Crypto)
    requires d.Valid() && m.Valid() && Sound(crypto) && Built(cfg, d, m, now, crypto).Ok?
    ensures m.app in {Install, Admin, Data, DataPrio}
    ensures var f := Built(cfg, d, m, now, crypto).value;
      && f[0] as int == |f| - 1
      && f[1] == (if m.app == Install then 0x46 else if m.app == Admin then 0x08 else if m.app == Data then 0x44 else 0x54)
      && f[2..4] == d.manuf && f[4..10] == d.addr && f[10] == 0x20 && f[11] as int == 48 + m.keyId % 16 && f[12] == cfg.netId
      && 256 * f[13] as int + f[14] as int == m.id
      && f[15] == (if m.app == Install then cfg.appInst else if m.app == Admin then cfg.appAdm
                   else if m.hasApp && m.data != [] then m.data[0] else cfg.appData)
      && 256 * f[|f| - 6] as int + f[|f| - 5] as int == now % 0x10000
  {
    hide CrcOf, Kenc, Kmac;
    var f := BuiltParts(cfg, d, m, now, crypto);
    BuiltReachesExchange(cfg, d, m, now, crypto, 0);
    hide Built;
    assert f[13] == f[13..15][0] && f[14] == f[13..15][1];
    assert f[|f| - 6] == f[|f| - 6..|f| - 4][0] && f[|f| - 5] == f[|f| - 6..|f| - 4][1];
    Be16Word(f[13..15], m.id);
    Be16Word(f[|f| - 6..|f| - 4], now % 0x10000);
  }

  /** Its CRC and its hashes are those that a receiver looks for, and its L7 part is the message's, ciphered under a key
      unless it says that it has been ciphered already; the receiver finds that key if its identifier has four bits.
      Without a key the head-end's hash is made with KEY_MAC_ID. */
  lemma BuiltIsGenuine(cfg: Config, d: Device, m: Message, now: nat, crypto: Crypto)
    requires d.Valid() && m.Valid() && Sound(crypto) && Built(cfg, d, m, now, crypto).Ok?
    ensures var f := Built(cfg, d, m, now, crypto).value;
      && CrcGood(f) && GatewayHash(f, crypto).Some? && f[|f| - 4..|f| - 2] <= GatewayHash(f, crypto).value
      && var h := if m.keyId != 0 then HeadEndHash(f, crypto)
                  else crypto.mac(f[16..|f| - 10], f[2..10] + f[13..15] + [0, 0, 0, 0, 0, 0], 17);
         h.Some? && f[|f| - 10..|f| - 6] <= h.value
    ensures var f := Built(cfg, d, m, now, crypto).value;
      if m.keyId != 0 && !(m.ciphered && m.app in {Data, DataPrio}) then m.keyId < 16 ==> Plain(f, crypto) == Some(m.L7())
      else f[16..|f| - 10] == m.L7()
  {
    hide CrcOf, L6App, MacBlock, EncBlock, CipherBlock, Be16, Built;
    var f := BuiltParts(cfg, d, m, now, crypto);
    BlocksOnBytes(f);
  }

  // ---------- a frame changed on its way ----------

  lemma WordParts(hi: bv8, lo: bv8)
    ensures Crc.Word(hi, lo) >> 8 == hi as bv16 && Crc.Word(hi, lo) & 0xFF == lo as bv16
    ensures Crc.High(Crc.Word(hi, lo)) == hi && Crc.Low(Crc.Word(hi, lo)) == lo
  {
  }

  lemma Halves(w: bv16)
    ensures w as int == 256 * ((w >> 8) as int) + ((w & 0xFF) as int)
  {
  }

  lemma Widened(c: bv8)
    ensures c as bv16 as int == c as int
  {
  }

  lemma WordIsNumber(hi: bv8, lo: bv8)
    ensures Crc.Word(hi, lo) as int == 256 * (hi as int) + lo as int
  {
    hide Crc.Word;
    WordParts(hi, lo);
    Halves(Crc.Word(hi, lo));
    Widened(hi);
    Widened(lo);
  }

  lemma EqualWords(a: bv16, b: bv16)
    ensures a as int == b as int <==> a == b
  {
    assert (a as int) as bv16 == a && (b as int) as bv16 == b;
  }

  lemma XorBack(a: bv8, b: bv8)
    ensures a ^ (a ^ b) == b && (a ^ b == 0 <==> a == b)
  {
  }

  /** The bits of one byte of each. */
  lemma DifferenceAt(f: seq<byte>, g: seq<byte>, i: nat)
    requires i < |f| == |g|
    ensures AsBits(f)[i] ^ AsBits(g)[i] == 0 <==> g[i] == f[i]
    ensures AsBits(f)[i] ^ (AsBits(f)[i] ^ AsBits(g)[i]) == AsBits(g)[i]
  {
    hide ToBits;
    XorBack(AsBits(f)[i], AsBits(g)[i]);
    BitsDiffer(f[i], g[i]);
  }

  /** The CRC of a frame is good exactly when the machine words say so. */
  lemma CrcGoodOnWords(f: seq<byte>)
    requires |f| >= 26
    ensures CrcGood(f) <==> Crc.Accepted(AsBits(f))
  {
    hide Crc.Word, Crc.CrcOf, ToBits;
    var b, n := AsBits(f), |f| - 2;
    assert b[..n] == AsBits(f[..n]);
    BitsDiffer(f[n], f[n + 1]);
    BitsDiffer(f[n + 1], f[n]);
    WordIsNumber(b[n], b[n + 1]);
    EqualWords(Crc.Word(b[n], b[n + 1]), Crc.CrcOf(b[..n]));
  }

  /** What is accepted is a message and its CRC. */
  lemma AcceptedIsSealed(b: seq<bv8>)
    requires |b| >= 2 && Crc.Accepted(b)
    ensures b == Crc.Sealed(b[..|b| - 2])
  {
    hide Crc.Word, Crc.CrcOf, Crc.High, Crc.Low;
    var n := |b| - 2;
    WordParts(b[n], b[n + 1]);
    assert b == b[..n] + [b[n], b[n + 1]];
  }

  /** Where two frames differ, in bits, and that the difference leads from one to the other. */
  lemma Difference(f: seq<byte>, g: seq<byte>)
    requires |g| == |f|
    ensures var e := Crc.XorBytes(AsBits(f), AsBits(g));
      Crc.XorBytes(AsBits(f), e) == AsBits(g) && forall i :: 0 <= i < |f| ==> (e[i] == 0 <==> g[i] == f[i])
  {
    hide AsBits;
    var a, b := AsBits(f), AsBits(g);
    var e := Crc.XorBytes(a, b);
    forall i | 0 <= i < |f|
      ensures (e[i] == 0 <==> g[i] == f[i]) && a[i] ^ e[i] == b[i]
    {
      DifferenceAt(f, g, i);
    }
    assert Crc.XorBytes(a, e) == b;
  }

  /** A good CRC does not stay good when one byte changes, or two that follow each other. */
  lemma ChangedCrc(f: seq<byte>, g: seq<byte>, p: nat)
    requires |g| == |f| >= 26 && p + 1 < |f| && (g[p] != f[p] || g[p + 1] != f[p + 1]) && CrcGood(f)
    requires forall i :: 0 <= i < |f| && i != p && i != p + 1 ==> g[i] == f[i]
    ensures !CrcGood(g)
  {
    hide Crc.Accepted, Crc.Sealed, CrcGood, AsBits, Crc.XorBytes;
    var a, b := AsBits(f), AsBits(g);
    CrcGoodOnWords(f);
    CrcGoodOnWords(g);
    AcceptedIsSealed(a);
    Difference(f, g);
    Crc.AdjacentBytesRejected(a[..|a| - 2], Crc.XorBytes(a, b), p);
  }

  /** A frame with a good CRC that has been changed within two adjacent bytes behind its address is answered with
      PROTO_FRAME_CRC_ERR by every receiver that it is for and that looks at the CRC. */
  lemma ChangedIsRefused(cfg: Config, d: Device, f: seq<byte>, g: seq<byte>, p: nat, clock: nat, recvData: bool, crypto: Crypto)
    requires |g| == |f| >= 26 && 10 <= p && p + 1 < |f| && (g[p] != f[p] || g[p + 1] != f[p + 1])
    requires forall i :: 0 <= i < |f| && i != p && i != p + 1 ==> g[i] == f[i]
    requires Sound(crypto) && CrcGood(f) && !cfg.crcOff
    requires !Has(cfg, d, f, recvData, crypto, OtherAddress) && !Has(cfg, d, f, recvData, crypto, OtherMaker)
    ensures Parsed(cfg, d, g, clock, recvData, crypto) == Err(FrameCrc)
  {
    hide Screened, Opened, Filled, Parsed, CrcGood;
    ChangedCrc(f, g, p);
    assert g[4..10] == f[4..10] && g[2..4] == f[2..4];
    RefusedForDefects(cfg, d, g, clock, recvData, crypto);
    assert Has(cfg, d, g, recvData, crypto, BadCrc);
    var x :| HasFirst(cfg, d, g, recvData, crypto, 0, x) && Answer(x) == Parsed(cfg, d, g, clock, recvData, crypto).code;
    assert Rank(x) <= 2;
  }

  /** So any built frame that is changed like that on its way back to its device. */
  lemma ChangedOnItsWay(cfg: Config, rcfg: Config, d: Device, m: Message, now: nat, g: seq<byte>, p: nat, clock: nat, recvData: bool,
                        crypto: Crypto)
    requires d.Valid() && m.Valid() && Sound(crypto) && Built(cfg, d, m, now, crypto).Ok? && m.keyId < 16 && !rcfg.crcOff
    requires var f := Built(cfg, d, m, now, crypto).value;
      && |g| == |f| && 10 <= p && p + 1 < |f| && (g[p] != f[p] || g[p + 1] != f[p + 1])
      && forall i :: 0 <= i < |f| && i != p && i != p + 1 ==> g[i] == f[i]
    ensures Parsed(rcfg, d, g, clock, recvData, crypto) == Err(FrameCrc)
  {
    hide Parsed, Built, CrcGood, GatewayHash, HeadEndHash, Plain;
    BuiltOnBytes(cfg, d, m, now, crypto);
    BuiltIsGenuine(cfg, d, m, now, crypto);
    ChangedIsRefused(rcfg, d, Built(cfg, d, m, now, crypto).value, g, p, clock, recvData, crypto);
  }
}
