/** The exchange frame of proto.c (Wize revision 1.2): what a built frame is, what a received one means,
    and that one undoes the other. The ciphers are functions of a key identifier and a counter block. */
module Frame {
  import opened Bytes
  import Crc

  datatype Option<T> = None | Some(value: T)

  datatype Code = Success | StackMismatch | InternalCrc | InternalHash | InternalCiph | InternalNull
    | HeadEndAuth | GatewayAuth | ProtoUnknown | FrameUnknown | FrameCrc | FrameSize | AppMsgSize
    | KeyIdUnknown | NetIdUnknown | FramePassed

  datatype App = Install | Admin | Download | Data | DataPrio | Unknown

  const L6VERS := 1
  const WIZE_PROTO_ID: byte := 0x20
  const INSTPONG: byte := 0x06
  const INSTPING: byte := 0x46
  const COMMAND: byte := 0x43
  const RESPONSE: byte := 0x08
  const DATA: byte := 0x44
  const DATA_PRIO: byte := 0x54
  const KEY_MAC_ID := 17

  const L6_START := 11
  const L7_START := 16
  const MAX_L7 := 230

  /** Encryption, decryption and the two kinds of hash: any functions of the data, a counter block and a
      key identifier; a key that is missing makes them fail. */
  datatype Crypto = Crypto(
    encrypt: (seq<byte>, seq<byte>, nat) -> Option<seq<byte>>,
    decrypt: (seq<byte>, seq<byte>, nat) -> Option<seq<byte>>,
    mac: (seq<byte>, seq<byte>, nat) -> Option<seq<byte>>)

  /** Lengths are kept, a hash has sixteen bytes, and decryption undoes encryption under the same counter
      block and key. */
  ghost predicate Sound(c: Crypto) {
    && (forall d, ctr, k :: c.encrypt(d, ctr, k).Some? ==>
          |c.encrypt(d, ctr, k).value| == |d| && c.decrypt(c.encrypt(d, ctr, k).value, ctr, k) == Some(d))
    && (forall d, ctr, k :: c.decrypt(d, ctr, k).Some? ==> |c.decrypt(d, ctr, k).value| == |d|)
    && (forall d, ctr, k :: c.mac(d, ctr, k).Some? ==> |c.mac(d, ctr, k).value| == 16)
  }

  /** struct proto_config_s; a filter that is off is a bit of filterDisL2 or filterDisL6 that is set. */
  datatype Config = Config(crcOff: bool, aFieldOff: bool, mFieldOff: bool, ciFieldOff: bool, kmacOff: bool, kencOff: bool, netIdOff: bool,
                           transMax: nat, recvMax: nat, netId: byte, appInst: byte, appAdm: byte, appData: byte)

  /** aDeviceManufID and aDeviceAddr. */
  datatype Device = Device(manuf: seq<byte>, addr: seq<byte>) {
    predicate Valid() {
      |manuf| == 2 && |addr| == 6
    }
  }

  /** The fields of net_msg_t that a frame is built from. */
  datatype Message = Message(app: App, id: nat, keyId: nat, hasApp: bool, ciphered: bool, data: seq<byte>) {
    predicate Valid() {
      id < 0x10000 && |data| < 256 && |L7()| <= MAX_L7
    }

    function L7(): seq<byte> {
      if hasApp && data != [] then data[1..] else data
    }
  }

  /** 16 bits in network order. */
  function Be16(n: nat): (s: seq<byte>)
    requires n < 0x10000
    ensures |s| == 2
  {
    [n / 256, n % 256]
  }

  function Word(hi: byte, lo: byte): nat {
    256 * hi + lo
  }

  function Zeros(n: nat): (s: seq<byte>)
    ensures |s| == n
  {
    seq<byte>(n, i => 0)
  }

  // ---------- counter blocks ----------

  function MacBlock(d: Device): seq<byte> {
    d.manuf + d.addr + Zeros(8)
  }

  function EncBlock(d: Device, cpt: seq<byte>): seq<byte> {
    d.manuf + d.addr + cpt + Zeros(6)
  }

  function CipherBlock(d: Device, cpt: seq<byte>, cfield: byte): seq<byte> {
    d.manuf + d.addr + cpt + [cfield] + Zeros(5)
  }

  // ---------- layout ----------

  /** Both headers. */
  function Headers(cfield: byte, d: Device, ctrl: byte, netId: byte, cpt: seq<byte>, app: byte): (h: seq<byte>)
    requires d.Valid() && |cpt| == 2
    ensures |h| == 15
  {
    [cfield] + d.manuf + d.addr + [WIZE_PROTO_ID] + [ctrl, netId] + cpt + [app]
  }

  /** The control field: KEYSEL has four bits, WTS is 1. */
  function Ctrl(keyId: nat): byte {
    keyId % 16 + 16 + 32 * L6VERS
  }

  /** A whole frame but for its CRC, from its parts. */
  function Assembled(headers: seq<byte>, body: seq<byte>, kenc: seq<byte>, tstamp: seq<byte>, kmac: seq<byte>): (f: seq<byte>)
    requires |headers| == 15 && |body| <= MAX_L7 && |kenc| == 4 && |tstamp| == 2 && |kmac| == 2
    ensures |f| == 24 + |body|
  {
    [|body| + 25] + headers + body + kenc + tstamp + kmac
  }

  function AsBits(s: seq<byte>): (b: seq<bv8>)
    ensures |b| == |s|
  {
    seq(|s|, i requires 0 <= i < |s| => ToBits(s[i]))
  }

  /** CRC_Compute on a non-empty stretch of bytes. */
  function CrcOf(s: seq<byte>): (c: nat)
    ensures c < 0x10000
  {
    Crc.CrcOf(AsBits(s)) as nat
  }

  // ---------- building ----------

  datatype Result<T> = Ok(value: T) | Err(code: Code)

  function Cfield(app: App): byte {
    match app
    case Install => INSTPING
    case Admin => RESPONSE
    case Data => DATA
    case DataPrio => DATA_PRIO
    case _ => 0
  }

  function L6App(cfg: Config, m: Message): byte {
    match m.app
    case Install => cfg.appInst
    case Admin => cfg.appAdm
    case _ => if m.hasApp && m.data != [] then m.data[0] else cfg.appData
  }

  /** The L7 part as it is sent. */
  function Sent(d: Device, m: Message, crypto: Crypto): Option<seq<byte>>
    requires m.Valid()
  {
    if m.keyId != 0 && (!m.ciphered || (m.app != Data && m.app != DataPrio))
    then crypto.encrypt(m.L7(), CipherBlock(d, Be16(m.id), Cfield(m.app)), m.keyId)
    else Some(m.L7())
  }

  function Kenc(d: Device, m: Message, body: seq<byte>, crypto: Crypto): Option<seq<byte>>
    requires m.Valid()
  {
    crypto.mac(body, EncBlock(d, Be16(m.id)), if m.keyId != 0 then m.keyId % 16 else KEY_MAC_ID)
  }

  function MacInput(ctrl: byte, netId: byte, cpt: seq<byte>, app: byte, body: seq<byte>, kenc: seq<byte>, tstamp: seq<byte>): seq<byte> {
    [ctrl, netId] + cpt + [app] + body + kenc + tstamp
  }

  function BuiltHeaders(cfg: Config, d: Device, m: Message): (h: seq<byte>)
    requires d.Valid() && m.Valid()
    ensures |h| == 15
  {
    Headers(Cfield(m.app), d, Ctrl(m.keyId), cfg.netId, Be16(m.id), L6App(cfg, m))
  }

  function Kmac(cfg: Config, d: Device, m: Message, body: seq<byte>, kenc: seq<byte>, tstamp: seq<byte>, crypto: Crypto): Option<seq<byte>>
    requires m.Valid()
  {
    crypto.mac(MacInput(Ctrl(m.keyId), cfg.netId, Be16(m.id), L6App(cfg, m), body, kenc, tstamp), MacBlock(d), KEY_MAC_ID)
  }

  function Stamp(now: nat): (s: seq<byte>)
    ensures |s| == 2
  {
    Be16(now % 0x10000)
  }

  function WithCrc(f: seq<byte>): seq<byte> {
    f + Be16(CrcOf(f))
  }

  /** _exchange_build: the frame, or why there is none. */
  ghost function Built(cfg: Config, d: Device, m: Message, now: nat, crypto: Crypto): (r: Result<seq<byte>>)
    requires d.Valid() && m.Valid() && Sound(crypto)
    ensures r.Ok? ==> |r.value| == 26 + |m.L7()|
  {
    if m.app == Download || m.app == Unknown then Err(StackMismatch)
    else match Sent(d, m, crypto)
      case None => Err(InternalCiph)
      case Some(body) =>
        match Kenc(d, m, body, crypto)
        case None => Err(InternalHash)
        case Some(h) =>
          match Kmac(cfg, d, m, body, h[..4], Stamp(now), crypto)
          case None => Err(InternalHash)
          case Some(k) => Ok(WithCrc(Assembled(BuiltHeaders(cfg, d, m), body, h[..4], Stamp(now), k[..2])))
  }

  // ---------- extracting ----------

  /** The fields of net_msg_t that a received frame fills. For a PONG the stamp is the frequency offset and
      the epoch is in the frame; otherwise the epoch is the clock's. */
  datatype Received = Received(app: App, id: nat, keyId: nat, stamp: nat, epoch: nat, data: seq<byte>)

  function Body(f: seq<byte>): seq<byte>
    requires |f| >= 26
  {
    f[L7_START..|f| - 10]
  }

  function Sender(f: seq<byte>): Device
    requires |f| >= 26
  {
    Device(f[2..4], f[4..10])
  }

  /** What the link layer and the first L6 fields are checked for, in order. */
  function Screened(cfg: Config, d: Device, f: seq<byte>, recvData: bool): Code
    requires |f| >= 26
  {
    if !cfg.aFieldOff && f[4..10] != d.addr then FramePassed
    else if !cfg.mFieldOff && f[2..4] != d.manuf then FramePassed
    else if !cfg.crcOff && Word(f[|f| - 2], f[|f| - 1]) != CrcOf(f[..|f| - 2]) then FrameCrc
    else if !cfg.ciFieldOff && f[10] != WIZE_PROTO_ID then ProtoUnknown
    else if f[11] / 32 != L6VERS then ProtoUnknown
    else if !cfg.netIdOff && f[12] != cfg.netId then NetIdUnknown
    else if f[1] != INSTPONG && f[1] != COMMAND && !(recvData && (f[1] == DATA || f[1] == DATA_PRIO)) then FrameUnknown
    else Success
  }

  /** The gateway's hash over L6, and the head-end's over L7. */
  ghost function KmacChecked(cfg: Config, f: seq<byte>, crypto: Crypto): Code
    requires |f| >= 26 && Sound(crypto)
  {
    if cfg.kmacOff then Success
    else match crypto.mac(f[L6_START..|f| - 4], MacBlock(Sender(f)), KEY_MAC_ID)
      case None => InternalHash
      case Some(h) => if h[..2] != f[|f| - 4..|f| - 2] then GatewayAuth else Success
  }

  ghost function KencChecked(cfg: Config, f: seq<byte>, crypto: Crypto): Code
    requires |f| >= 26 && Sound(crypto)
  {
    if cfg.kencOff then Success
    else match crypto.mac(Body(f), EncBlock(Sender(f), f[13..15]), f[11] % 16)
      case None => InternalHash
      case Some(h) => if h[..4] != f[|f| - 10..|f| - 6] then HeadEndAuth else Success
  }

  ghost function Opened(cfg: Config, f: seq<byte>, crypto: Crypto): Result<seq<byte>>
    requires |f| >= 26 && Sound(crypto)
  {
    if f[11] % 16 == 0 then
      var c := KmacChecked(cfg, f, crypto);
      if c != Success then Err(c) else Ok(Body(f))
    else
      var c := KencChecked(cfg, f, crypto);
      if c != Success then Err(c) else
        var c' := KmacChecked(cfg, f, crypto);
        if c' != Success then Err(c') else
          match crypto.decrypt(Body(f), CipherBlock(Sender(f), f[13..15], f[1]), f[11] % 16)
          case None => Err(InternalCiph)
          case Some(plain) => Ok(plain)
  }

  function Filled(f: seq<byte>, plain: seq<byte>, clock: nat): Received
    requires |f| >= 26
  {
    var id, key, stamp := Word(f[13], f[14]), f[11] % 16, Word(f[|f| - 6], f[|f| - 5]);
    if f[1] == INSTPONG then
      Received(Install, id, key, stamp, 0x10000 * Word(f[|f| - 10], f[|f| - 9]) + Word(f[|f| - 8], f[|f| - 7]), plain)
    else if f[1] == DATA then Received(Data, id, key, stamp, clock, [f[15]] + plain)
    else if f[1] == DATA_PRIO then Received(DataPrio, id, key, stamp, clock, [f[15]] + plain)
    else Received(Admin, id, key, stamp, clock, plain)
  }

  /** _exchange_extract: what a frame says, or why it is refused. */
  ghost function Parsed(cfg: Config, d: Device, f: seq<byte>, clock: nat, recvData: bool, crypto: Crypto): Result<Received>
    requires |f| >= 26 && Sound(crypto)
  {
    var c := Screened(cfg, d, f, recvData);
    if c != Success then Err(c) else
      match Opened(cfg, f, crypto)
      case Err(code) => Err(code)
      case Ok(plain) => Ok(Filled(f, plain, clock))
  }

  // ---------- one undoes the other ----------

  /** Where the parts of a frame are found again. */
  lemma Layout(headers: seq<byte>, body: seq<byte>, kenc: seq<byte>, tstamp: seq<byte>, kmac: seq<byte>)
    requires |headers| == 15 && |body| <= MAX_L7 && |kenc| == 4 && |tstamp| == 2 && |kmac| == 2
    ensures var g := Assembled(headers, body, kenc, tstamp, kmac);
      var f := WithCrc(g);
      && |f| == 26 + |body| && f[..|f| - 2] == g && f[|f| - 2..] == Be16(CrcOf(g))
      && f[1..16] == headers && Body(f) == body && f[|f| - 10..|f| - 6] == kenc
      && f[|f| - 6..|f| - 4] == tstamp && f[|f| - 4..|f| - 2] == kmac
      && f[L6_START..|f| - 4] == headers[10..] + body + kenc + tstamp
  {
  }

  lemma HeaderFields(cfield: byte, d: Device, ctrl: byte, netId: byte, cpt: seq<byte>, app: byte)
    requires d.Valid() && |cpt| == 2
    ensures var h := Headers(cfield, d, ctrl, netId, cpt, app);
      && h[0] == cfield && h[1..3] == d.manuf && h[3..9] == d.addr && h[9] == WIZE_PROTO_ID
      && h[10] == ctrl && h[11] == netId && h[12..14] == cpt && h[14] == app
      && h[10..] == [ctrl, netId] + cpt + [app]
  {
    var l2, l6 := [cfield] + d.manuf + d.addr + [WIZE_PROTO_ID], [ctrl, netId] + cpt + [app];
    assert Headers(cfield, d, ctrl, netId, cpt, app) == l2 + l6;
    assert l2[1..3] == d.manuf && l2[3..9] == d.addr && l6[2..4] == cpt;
  }

  /** A frame whose parts are those of a message. */
  ghost predicate Carries(f: seq<byte>, cfg: Config, d: Device, m: Message, body: seq<byte>, kenc: seq<byte>, tstamp: seq<byte>, kmac: seq<byte>)
    requires d.Valid() && m.Valid()
  {
    && |f| == 26 + |body| && Word(f[|f| - 2], f[|f| - 1]) == CrcOf(f[..|f| - 2])
    && HeadersCarry(f, cfg, d, m)
    && Body(f) == body && f[|f| - 10..|f| - 6] == kenc && f[|f| - 6..|f| - 4] == tstamp && f[|f| - 4..|f| - 2] == kmac
    && f[L6_START..|f| - 4] == MacInput(Ctrl(m.keyId), cfg.netId, Be16(m.id), L6App(cfg, m), body, kenc, tstamp)
  }

  ghost predicate HeadersCarry(f: seq<byte>, cfg: Config, d: Device, m: Message)
    requires d.Valid() && m.Valid() && |f| >= 26
  {
    && f[1] == Cfield(m.app) && Sender(f) == d && f[10] == WIZE_PROTO_ID && f[11] == Ctrl(m.keyId)
    && f[12] == cfg.netId && f[13..15] == Be16(m.id) && f[15] == L6App(cfg, m)
  }

  lemma SliceOfSlice<T>(s: seq<T>, a: nat, b: nat, c: nat, e: nat)
    requires a + c <= a + e <= b <= |s|
    ensures s[a..b][c..e] == s[a + c..a + e]
  {
    var x, y := s[a..b][c..e], s[a + c..a + e];
    assert |x| == |y| && forall i :: 0 <= i < |x| ==> x[i] == y[i];
  }

  lemma HeadersOfFrame(f: seq<byte>, cfg: Config, d: Device, m: Message)
    requires d.Valid() && m.Valid() && |f| >= 26 && f[1..16] == BuiltHeaders(cfg, d, m)
    ensures HeadersCarry(f, cfg, d, m)
  {
    hide Headers, L6App, Cfield, Ctrl;
    HeaderFields(Cfield(m.app), d, Ctrl(m.keyId), cfg.netId, Be16(m.id), L6App(cfg, m));
    SliceOfSlice(f, 1, 16, 1, 3);
    SliceOfSlice(f, 1, 16, 3, 9);
    SliceOfSlice(f, 1, 16, 12, 14);
    var h := f[1..16];
    assert h[0] == f[1] && h[9] == f[10] && h[10] == f[11] && h[11] == f[12] && h[14] == f[15];
    assert Sender(f) == d && f[10] == WIZE_PROTO_ID && f[1] == Cfield(m.app) && f[11] == Ctrl(m.keyId);
    assert f[12] == cfg.netId && f[13..15] == Be16(m.id) && f[15] == L6App(cfg, m);
  }

  lemma BuiltCarries(cfg: Config, d: Device, m: Message, body: seq<byte>, kenc: seq<byte>, tstamp: seq<byte>, kmac: seq<byte>)
    requires d.Valid() && m.Valid() && |body| <= MAX_L7 && |kenc| == 4 && |tstamp| == 2 && |kmac| == 2
    ensures Carries(WithCrc(Assembled(BuiltHeaders(cfg, d, m), body, kenc, tstamp, kmac)), cfg, d, m, body, kenc, tstamp, kmac)
  {
    hide Assembled, WithCrc, Headers, BuiltHeaders, CrcOf, L6App, Cfield, Ctrl, HeadersCarry, Be16;
    var h := BuiltHeaders(cfg, d, m);
    var f := WithCrc(Assembled(h, body, kenc, tstamp, kmac));
    Layout(h, body, kenc, tstamp, kmac);
    MacPart(cfg, d, m);
    Be16Word(f[|f| - 2..], CrcOf(f[..|f| - 2]));
    HeadersOfFrame(f, cfg, d, m);
  }

  lemma MacPart(cfg: Config, d: Device, m: Message)
    requires d.Valid() && m.Valid()
    ensures BuiltHeaders(cfg, d, m)[10..] == [Ctrl(m.keyId), cfg.netId] + Be16(m.id) + [L6App(cfg, m)]
  {
    HeaderFields(Cfield(m.app), d, Ctrl(m.keyId), cfg.netId, Be16(m.id), L6App(cfg, m));
  }

  lemma Be16Word(s: seq<byte>, n: nat)
    requires n < 0x10000 && s == Be16(n)
    ensures Word(s[0], s[1]) == n
  {
  }

  /** The L7 part that a receiver gets out of a DATA frame: the message's own, unless the message says that
      it has been ciphered already and names a key. That one is sent as it is, and deciphered. */
  function Delivered(d: Device, m: Message, crypto: Crypto): Option<seq<byte>>
    requires m.Valid()
  {
    if m.keyId != 0 && m.ciphered then crypto.decrypt(m.L7(), CipherBlock(d, Be16(m.id), Cfield(m.app)), m.keyId) else Some(m.L7())
  }

  /** Such a frame passes every check, whichever filters are on, and yields the message. */
  lemma CarriedIsParsed(f: seq<byte>, cfg: Config, rcfg: Config, d: Device, m: Message, body: seq<byte>, h: seq<byte>, k: seq<byte>,
                        now: nat, clock: nat, crypto: Crypto)
    requires d.Valid() && m.Valid() && Sound(crypto) && m.data != []
    requires m.app == Data || m.app == DataPrio
    requires m.keyId < 16 && rcfg.netId == cfg.netId
    requires Sent(d, m, crypto) == Some(body) && Kenc(d, m, body, crypto) == Some(h) && |h| == 16 && |k| == 16
    requires Kmac(cfg, d, m, body, h[..4], Stamp(now), crypto) == Some(k)
    requires Carries(f, cfg, d, m, body, h[..4], Stamp(now), k[..2])
    ensures Parsed(rcfg, d, f, clock, true, crypto) == match Delivered(d, m, crypto)
      case None => Err(InternalCiph)
      case Some(l7) => Ok(Received(m.app, m.id, m.keyId, now % 0x10000, clock, [L6App(cfg, m)] + l7))
  {
    hide CrcOf, L6App;
    assert Screened(rcfg, d, f, true) == Success;
    assert KmacChecked(rcfg, f, crypto) == Success;
    assert m.keyId != 0 ==> KencChecked(rcfg, f, crypto) == Success;
    assert Opened(rcfg, f, crypto) == match Delivered(d, m, crypto) case None => Err(InternalCiph) case Some(l7) => Ok(l7);
    assert f[13] == f[13..15][0] && f[14] == f[13..15][1];
    assert f[|f| - 6] == f[|f| - 6..|f| - 4][0] && f[|f| - 5] == f[|f| - 6..|f| - 4][1];
    Be16Word(f[13..15], m.id);
    Be16Word(f[|f| - 6..|f| - 4], now % 0x10000);
  }

  /** Extracting a built DATA or DATA_PRIO frame gives back the message, for any ciphers and hashes; if it
      was ciphered already, it comes back deciphered. */
  lemma RoundTrip(cfg: Config, rcfg: Config, d: Device, m: Message, now: nat, clock: nat, crypto: Crypto)
    requires d.Valid() && m.Valid() && Sound(crypto) && m.data != []
    requires m.app == Data || m.app == DataPrio
    requires m.keyId < 16 && rcfg.netId == cfg.netId
    requires Built(cfg, d, m, now, crypto).Ok?
    ensures Parsed(rcfg, d, Built(cfg, d, m, now, crypto).value, clock, true, crypto) == match Delivered(d, m, crypto)
      case None => Err(InternalCiph)
      case Some(l7) => Ok(Received(m.app, m.id, m.keyId, now % 0x10000, clock, [L6App(cfg, m)] + l7))
    ensures m.keyId == 0 || !m.ciphered ==> Delivered(d, m, crypto) == Some(m.L7())
  {
    hide CrcOf, L6App, WithCrc, Assembled, BuiltHeaders, Parsed, MacInput, Carries, Cfield;
    var body := Sent(d, m, crypto).value;
    var h := Kenc(d, m, body, crypto).value;
    var k := Kmac(cfg, d, m, body, h[..4], Stamp(now), crypto).value;
    BuiltCarries(cfg, d, m, body, h[..4], Stamp(now), k[..2]);
    CarriedIsParsed(Built(cfg, d, m, now, crypto).value, cfg, rcfg, d, m, body, h, k, now, clock, crypto);
  }

  // ---------- the length field decides ----------

  /** Which layer a received length goes to. */
  datatype Layer = DownloadLayer | ExchangeLayer | Refused(code: Code)

  function LayerOf(length: nat, recvMax: nat): Layer {
    if length == 0xFF then DownloadLayer
    else if length <= 0x15 then Refused(FrameSize)
    else if length > recvMax then Refused(AppMsgSize)
    else ExchangeLayer
  }

  /** A built frame reaches the exchange layer again exactly when its L7 part is not the longest one (its
      length field would then be that of a download frame) and the receiver admits its length. */
  lemma BuiltReachesExchange(cfg: Config, d: Device, m: Message, now: nat, crypto: Crypto, recvMax: nat)
    requires d.Valid() && m.Valid() && Sound(crypto) && Built(cfg, d, m, now, crypto).Ok?
    ensures var f := Built(cfg, d, m, now, crypto).value;
      && f[0] == |f| - 1
      && (LayerOf(f[0], recvMax) == ExchangeLayer <==> |m.L7()| < MAX_L7 && |m.L7()| + 25 <= recvMax)
      && (|m.L7()| == MAX_L7 ==> LayerOf(f[0], recvMax) == DownloadLayer)
  {
  }
}
