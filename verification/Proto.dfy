/** Wize_ProtoBuild and Wize_ProtoExtract of proto.c, working in place on the frame buffer. The clock is a
    parameter, and so are the ciphers and hashes. */
module Proto {
  import opened Bytes
  import opened Frame

  /** struct proto_ctx_s, without the statistics. */
  class Context {
    const buffer: array?<byte>
    const device: Device
    var config: Config
    var size: nat

    constructor (buffer: array?<byte>, device: Device, config: Config)
      requires device.Valid() && (buffer != null ==> buffer.Length >= 256)
      ensures Valid() && this.buffer == buffer && this.device == device && this.config == config
    {
      this.buffer, this.device, this.config, size := buffer, device, config, 0;
    }

    predicate Valid() {
      device.Valid() && (buffer != null ==> buffer.Length >= 256)
    }
  }

  /** net_msg_t; stamp is the union of u16Tstamp and i16TxFreqOffset. */
  class NetMsg {
    const data: array?<byte>
    var app: App
    var id: nat
    var keyId: nat
    var hasApp: bool
    var ciphered: bool
    var size: nat
    var stamp: nat
    var epoch: nat

    constructor (data: array?<byte>)
      requires data != null ==> data.Length >= 256
      ensures Valid() && this.data == data
    {
      this.data, app, id, keyId, hasApp, ciphered, size, stamp, epoch := data, Unknown, 0, 0, false, false, 0, 0, 0;
    }

    predicate Valid()
      reads this
    {
      id < 0x10000 && size < 256 && (data != null ==> data.Length >= 256)
    }

    function Value(): Message
      requires Valid() && data != null
      reads this, data
    {
      Message(app, id, keyId, hasApp, ciphered, data[..size])
    }

    function Got(): Received
      requires Valid() && data != null
      reads this, data
    {
      Received(app, id, keyId, stamp, epoch, data[..size])
    }
  }

  /** memcpy into a buffer. */
  method Copy(dst: array<byte>, at: nat, src: seq<byte>)
    requires at + |src| <= dst.Length
    modifies dst
    ensures dst[..at + |src|] == old(dst[..at]) + src
    ensures forall i :: at + |src| <= i < dst.Length ==> dst[i] == old(dst[i])
  {
    forall i | 0 <= i < |src| {
      dst[at + i] := src[i];
    }
    assert dst[..at] == old(dst[..at]);
  }

  /** The code of a result. */
  function CodeOf<T>(r: Result<T>): Code {
    match r
    case Ok(_) => Success
    case Err(c) => c
  }

  /** Both headers, field by field. */
  method PutHeaders(ctx: Context, msg: NetMsg, cfield: byte, app: byte)
    requires ctx.Valid() && ctx.buffer != null && msg.Valid()
    modifies ctx.buffer
    ensures ctx.buffer[..16] == [old(ctx.buffer[0])] + Headers(cfield, ctx.device, Ctrl(msg.keyId), ctx.config.netId, Be16(msg.id), app)
  {
    hide Headers, Ctrl, Be16;
    var b := ctx.buffer;
    ghost var first := [b[0]];
    Copy(b, 1, [cfield]);
    Copy(b, 2, ctx.device.manuf);
    Copy(b, 4, ctx.device.addr);
    Copy(b, 10, [WIZE_PROTO_ID]);
    Copy(b, 11, [Ctrl(msg.keyId), ctx.config.netId]);
    Copy(b, 13, Be16(msg.id));
    Copy(b, 15, [app]);
    HeadersAfter(first, cfield, ctx.device, Ctrl(msg.keyId), ctx.config.netId, Be16(msg.id), app);
  }

  lemma HeadersAfter(first: seq<byte>, cfield: byte, d: Device, ctrl: byte, netId: byte, cpt: seq<byte>, app: byte)
    requires d.Valid() && |cpt| == 2
    ensures first + [cfield] + d.manuf + d.addr + [WIZE_PROTO_ID] + [ctrl, netId] + cpt + [app]
      == first + Headers(cfield, d, ctrl, netId, cpt, app)
  {
  }

  /** _encrypt_ and _decrypt_: in place, when the cipher does not fail. */
  method Encrypt(b: array<byte>, n: nat, block: seq<byte>, keyId: nat, crypto: Crypto) returns (ok: bool)
    requires Sound(crypto) && L7_START + n <= b.Length
    modifies b
    ensures var r := crypto.encrypt(old(b[L7_START..L7_START + n]), block, keyId);
      && ok == r.Some?
      && b[..L7_START + n] == old(b[..L7_START]) + (if ok then r.value else old(b[L7_START..L7_START + n]))
  {
    var r := crypto.encrypt(b[L7_START..L7_START + n], block, keyId);
    ok := r.Some?;
    if ok {
      Copy(b, L7_START, r.value);
    } else {
      assert b[..L7_START + n] == b[..L7_START] + b[L7_START..L7_START + n];
    }
  }

  method Decrypt(b: array<byte>, n: nat, block: seq<byte>, keyId: nat, crypto: Crypto) returns (ok: bool)
    requires Sound(crypto) && L7_START + n <= b.Length
    modifies b
    ensures var r := crypto.decrypt(old(b[L7_START..L7_START + n]), block, keyId);
      && ok == r.Some?
      && b[..L7_START + n] == old(b[..L7_START]) + (if ok then r.value else old(b[L7_START..L7_START + n]))
    ensures forall i :: L7_START + n <= i < b.Length ==> b[i] == old(b[i])
  {
    var r := crypto.decrypt(b[L7_START..L7_START + n], block, keyId);
    ok := r.Some?;
    if ok {
      Copy(b, L7_START, r.value);
    } else {
      assert b[..L7_START + n] == b[..L7_START] + b[L7_START..L7_START + n];
    }
  }

  /** The L7 part, as it is sent. */
  method PutBody(ctx: Context, msg: NetMsg, l7: seq<byte>, cfield: byte, crypto: Crypto) returns (code: Code)
    requires ctx.Valid() && ctx.buffer != null && msg.Valid() && msg.data != null && msg.data != ctx.buffer && Sound(crypto)
    requires msg.Value().Valid() && l7 == msg.Value().L7() && cfield == Cfield(msg.app)
    modifies ctx.buffer
    ensures var sent := Sent(ctx.device, msg.Value(), crypto);
      code == if sent.None? then InternalCiph else Success
    ensures code == Success ==> ctx.buffer[..16 + |l7|] == old(ctx.buffer[..16]) + Sent(ctx.device, msg.Value(), crypto).value
  {
    var b := ctx.buffer;
    Copy(b, L7_START, l7);
    assert b[L7_START..L7_START + |l7|] == l7 && b[..L7_START] == old(b[..L7_START]);
    code := Success;
    if msg.keyId != 0 {
      if !msg.ciphered || (msg.app != Data && msg.app != DataPrio) {
        var ok := Encrypt(b, |l7|, CipherBlock(ctx.device, Be16(msg.id), cfield), msg.keyId, crypto);
        if !ok {
          code := InternalCiph;
        }
      }
    }
  }

  /** The head-end's hash and the time stamp. */
  method PutKenc(ctx: Context, msg: NetMsg, n: nat, ghost body: seq<byte>, now: nat, crypto: Crypto) returns (code: Code)
    requires ctx.Valid() && ctx.buffer != null && msg.Valid() && msg.data != null && msg.data != ctx.buffer && Sound(crypto)
    requires msg.Value().Valid() && n == |body| <= MAX_L7 && ctx.buffer[L7_START..L7_START + n] == body
    modifies ctx.buffer, msg`stamp, msg`epoch
    ensures var r := Kenc(ctx.device, msg.Value(), body, crypto);
      code == (if r.None? then InternalHash else Success)
    ensures code == Success ==>
      && ctx.buffer[..22 + n] == old(ctx.buffer[..16 + n]) + Kenc(ctx.device, msg.Value(), body, crypto).value[..4] + Stamp(now)
      && msg.stamp == now % 0x10000 && msg.epoch == now % 0x1_0000_0000
  {
    hide Be16, EncBlock;
    var b := ctx.buffer;
    var kenc := crypto.mac(b[L7_START..L7_START + n], EncBlock(ctx.device, Be16(msg.id)), if msg.keyId != 0 then msg.keyId % 16 else KEY_MAC_ID);
    if kenc == None {
      return InternalHash;
    }
    Copy(b, L7_START + n, kenc.value[..4]);
    Copy(b, L7_START + n + 4, Be16(now % 0x10000));
    msg.stamp := now % 0x10000;
    msg.epoch := now % 0x1_0000_0000;
    code := Success;
  }

  /** The gateway's hash, the length in front and the CRC behind. */
  method PutKmac(ctx: Context, n: nat, ghost input: seq<byte>, crypto: Crypto) returns (code: Code)
    requires ctx.Valid() && ctx.buffer != null && Sound(crypto) && n <= MAX_L7
    requires ctx.buffer[L6_START..22 + n] == input
    modifies ctx.buffer
    ensures code == if crypto.mac(input, MacBlock(ctx.device), KEY_MAC_ID).None? then InternalHash else Success
    ensures code == Success ==>
      ctx.buffer[..26 + n] == WithCrc([n + 25] + old(ctx.buffer[1..22 + n]) + crypto.mac(input, MacBlock(ctx.device), KEY_MAC_ID).value[..2])
  {
    hide Be16, MacBlock, CrcOf;
    var b := ctx.buffer;
    var kmac := crypto.mac(b[L6_START..22 + n], MacBlock(ctx.device), KEY_MAC_ID);
    if kmac == None {
      return InternalHash;
    }
    Copy(b, 22 + n, kmac.value[..2]);
    assert b[1..24 + n] == old(b[1..22 + n]) + kmac.value[..2] by {
      assert b[1..24 + n] == b[..24 + n][1..];
    }
    b[0] := n + 25;
    assert b[..24 + n] == [b[0]] + b[1..24 + n];
    assert b[..24 + n] == [n + 25] + old(b[1..22 + n]) + kmac.value[..2];
    var crc := CrcOf(b[..24 + n]);
    Copy(b, 24 + n, Be16(crc));
    code := Success;
  }

  /** _exchange_build, after the type of the message has been looked at. */
  method BuildAs(ctx: Context, msg: NetMsg, cfield: byte, app: byte, l7: seq<byte>, now: nat, crypto: Crypto) returns (code: Code)
    requires ctx.Valid() && ctx.buffer != null && msg.Valid() && msg.data != null && msg.data != ctx.buffer && Sound(crypto)
    requires msg.Value().Valid() && msg.app != Download && msg.app != Unknown
    requires cfield == Cfield(msg.app) && app == L6App(ctx.config, msg.Value()) && l7 == msg.Value().L7()
    modifies ctx.buffer, msg`stamp, msg`epoch
    ensures code == CodeOf(Built(ctx.config, ctx.device, msg.Value(), now, crypto))
    ensures code == Success <==> Built(ctx.config, ctx.device, msg.Value(), now, crypto).Ok?
    ensures code == Success ==>
      && ctx.buffer[..26 + |l7|] == Built(ctx.config, ctx.device, msg.Value(), now, crypto).value
      && msg.stamp == now % 0x10000 && msg.epoch == now % 0x1_0000_0000
  {
    hide Headers, Ctrl, Be16, WithCrc, Cfield, L6App, EncBlock, MacBlock, CipherBlock, CrcOf, Assembled;
    var b, n := ctx.buffer, |l7|;
    ghost var m := msg.Value();
    ghost var first, h := [b[0]], BuiltHeaders(ctx.config, ctx.device, m);
    PutHeaders(ctx, msg, cfield, app);
    code := PutBody(ctx, msg, l7, cfield, crypto);
    if code != Success {
      return;
    }
    ghost var body := Sent(ctx.device, m, crypto).value;
    BodyRegion(b[..16 + n], first, h, body);
    assert b[L7_START..L7_START + n] == b[..16 + n][L7_START..];
    code := PutKenc(ctx, msg, n, body, now, crypto);
    if code != Success {
      return;
    }
    ghost var kenc := Kenc(ctx.device, m, body, crypto).value[..4];
    MacPart(ctx.config, ctx.device, m);
    MacRegion(first, h, body, kenc, Stamp(now));
    assert b[L6_START..22 + n] == b[..22 + n][L6_START..] && b[1..22 + n] == b[..22 + n][1..];
    code := PutKmac(ctx, n, h[10..] + body + kenc + Stamp(now), crypto);
    if code == Success {
      ghost var kmac := Kmac(ctx.config, ctx.device, m, body, kenc, Stamp(now), crypto).value[..2];
      AssembledIs(h, body, kenc, Stamp(now), kmac);
    }
  }

  lemma AssembledIs(h: seq<byte>, body: seq<byte>, kenc: seq<byte>, stamp: seq<byte>, kmac: seq<byte>)
    requires |h| == 15 && |body| <= MAX_L7 && |kenc| == 4 && |stamp| == 2 && |kmac| == 2
    ensures Assembled(h, body, kenc, stamp, kmac) == [|body| + 25] + (h + body + kenc + stamp) + kmac
  {
  }

  lemma BodyRegion(prefix: seq<byte>, first: seq<byte>, h: seq<byte>, body: seq<byte>)
    requires |first| == 1 && |h| == 15 && prefix == first + h + body
    ensures prefix[L7_START..] == body
  {
  }

  lemma MacRegion(first: seq<byte>, h: seq<byte>, body: seq<byte>, kenc: seq<byte>, stamp: seq<byte>)
    requires |first| == 1 && |h| == 15
    ensures var prefix := first + h + body + kenc + stamp;
      && prefix[L6_START..] == h[10..] + body + kenc + stamp
      && prefix[1..] == h + body + kenc + stamp
  {
  }

  /** _exchange_build. */
  method ExchangeBuild(ctx: Context, msg: NetMsg, now: nat, crypto: Crypto) returns (code: Code)
    requires ctx.Valid() && ctx.buffer != null && msg.Valid() && msg.data != null && msg.data != ctx.buffer && Sound(crypto)
    requires msg.Value().Valid() && msg.size > 0
    modifies ctx.buffer, msg`stamp, msg`epoch
    ensures code == CodeOf(Built(ctx.config, ctx.device, msg.Value(), now, crypto))
    ensures code == Success <==> Built(ctx.config, ctx.device, msg.Value(), now, crypto).Ok?
    ensures code == Success ==>
      && ctx.buffer[..26 + |msg.Value().L7()|] == Built(ctx.config, ctx.device, msg.Value(), now, crypto).value
      && msg.stamp == now % 0x10000 && msg.epoch == now % 0x1_0000_0000
  {
    hide Built;
    var n, start := msg.size, 0;
    if msg.hasApp {
      n, start := n - 1, 1;
    }
    var l7 := msg.data[start..start + n];
    assert l7 == msg.Value().L7();
    var cfield, app := 0, 0;
    match msg.app {
      case Install =>
        app, cfield := ctx.config.appInst, INSTPING;
      case Admin =>
        app, cfield := ctx.config.appAdm, RESPONSE;
      case Data =>
        cfield := DATA;
        app := if msg.hasApp then msg.data[start - 1] else ctx.config.appData;
      case DataPrio =>
        cfield := DATA_PRIO;
        app := if msg.hasApp then msg.data[start - 1] else ctx.config.appData;
      case _ =>
        Unsendable(ctx.config, ctx.device, msg.Value(), now, crypto);
        return StackMismatch;
    }
    code := BuildAs(ctx, msg, cfield, app, l7, now, crypto);
  }

  lemma Unsendable(cfg: Config, d: Device, m: Message, now: nat, crypto: Crypto)
    requires d.Valid() && m.Valid() && Sound(crypto) && (m.app == Download || m.app == Unknown)
    ensures Built(cfg, d, m, now, crypto) == Err(StackMismatch)
  {
  }

  /** Wize_ProtoBuild. */
  method ProtoBuild(ctx: Context?, msg: NetMsg?, now: nat, crypto: Crypto) returns (code: Code)
    requires ctx != null ==> ctx.Valid()
    requires msg != null ==> msg.Valid() && (msg.data != null ==> msg.Value().Valid())
    requires ctx != null && msg != null && ctx.buffer != null ==> ctx.buffer != msg.data
    requires Sound(crypto)
    modifies (if ctx != null then {ctx} else {})`size, if ctx != null && ctx.buffer != null then {ctx.buffer} else {}
    modifies (if msg != null then {msg} else {})`stamp, (if msg != null then {msg} else {})`epoch
    ensures ctx == null || msg == null || ctx.buffer == null || msg.data == null ==> code == InternalNull
    ensures ctx != null && msg != null && ctx.buffer != null && msg.data != null ==>
      && code == (if msg.size == 0 then FrameSize else if msg.size > ctx.config.transMax then AppMsgSize
                  else CodeOf(Built(ctx.config, ctx.device, msg.Value(), now, crypto)))
      && (code != Success ==> ctx.size == 0)
      && (code == Success ==> InBuffer(ctx, msg, now, crypto))
  {
    hide Sound, Built;
    code := InternalNull;
    if ctx != null && msg != null && ctx.buffer != null && msg.data != null {
      ctx.size := 0;
      if msg.size > 0 {
        if msg.size <= ctx.config.transMax {
          code := ExchangeBuild(ctx, msg, now, crypto);
          if code == Success {
            BuiltReachesExchange(ctx.config, ctx.device, msg.Value(), now, crypto, 0);
            assert ctx.buffer[0] == ctx.buffer[..26 + |msg.Value().L7()|][0];
            ctx.size := ctx.buffer[0];
          }
        } else {
          code := AppMsgSize;
        }
      } else {
        code := FrameSize;
      }
    }
  }

  /** The frame is in the buffer, and size is its length field. */
  ghost predicate InBuffer(ctx: Context, msg: NetMsg, now: nat, crypto: Crypto)
    requires ctx.Valid() && ctx.buffer != null && msg.Valid() && msg.data != null && msg.Value().Valid() && Sound(crypto)
    reads ctx, ctx.buffer, msg, msg.data
  {
    var r := Built(ctx.config, ctx.device, msg.Value(), now, crypto);
    && r.Ok? && ctx.buffer[..|r.value|] == r.value && ctx.size == |r.value| - 1
    && msg.stamp == now % 0x10000 && msg.epoch == now % 0x1_0000_0000
  }

  // ---------- extraction ----------

  /** The checks before the keys are looked at. */
  method Screen(ctx: Context, b: array<byte>, len: nat, recvData: bool) returns (code: Code)
    requires ctx.Valid() && 25 <= len < b.Length
    ensures code == Screened(ctx.config, ctx.device, b[..len + 1], recvData)
  {
    hide CrcOf;
    var cfg, l2End := ctx.config, len - 1;
    ghost var f := b[..len + 1];
    assert f[4..10] == b[4..10] && f[2..4] == b[2..4] && f[..|f| - 2] == b[..l2End];
    if !cfg.aFieldOff && b[4..10] != ctx.device.addr {
      return FramePassed;
    }
    if !cfg.mFieldOff && b[2..4] != ctx.device.manuf {
      return FramePassed;
    }
    if !cfg.crcOff {
      var crc := CrcOf(b[..l2End]);
      if Word(b[l2End], b[l2End + 1]) != crc {
        return FrameCrc;
      }
    }
    if !cfg.ciFieldOff && b[10] != WIZE_PROTO_ID {
      return ProtoUnknown;
    }
    if b[11] / 32 != L6VERS {
      return ProtoUnknown;
    }
    if !cfg.netIdOff && b[12] != cfg.netId {
      return NetIdUnknown;
    }
    if b[1] != INSTPONG && b[1] != COMMAND {
      if !recvData || (b[1] != DATA && b[1] != DATA_PRIO) {
        return FrameUnknown;
      }
    }
    code := Success;
  }

  method CheckKmac(ctx: Context, b: array<byte>, len: nat, crypto: Crypto) returns (code: Code)
    requires 25 <= len < b.Length && Sound(crypto)
    ensures code == KmacChecked(ctx.config, b[..len + 1], crypto)
  {
    code := Success;
    if !ctx.config.kmacOff {
      ghost var f := b[..len + 1];
      assert f[L6_START..|f| - 4] == b[L6_START..len - 3] && f[|f| - 4..|f| - 2] == b[len - 3..len - 1];
      assert f[2..4] == b[2..4] && f[4..10] == b[4..10];
      var hash := crypto.mac(b[L6_START..len - 3], MacBlock(Device(b[2..4], b[4..10])), KEY_MAC_ID);
      if hash == None {
        code := InternalHash;
      } else if hash.value[..2] != b[len - 3..len - 1] {
        code := GatewayAuth;
      }
    }
  }

  method CheckKenc(ctx: Context, b: array<byte>, len: nat, crypto: Crypto) returns (code: Code)
    requires 25 <= len < b.Length && Sound(crypto)
    ensures code == KencChecked(ctx.config, b[..len + 1], crypto)
  {
    code := Success;
    if !ctx.config.kencOff {
      ghost var f := b[..len + 1];
      assert Body(f) == b[L7_START..len - 9] && f[|f| - 10..|f| - 6] == b[len - 9..len - 5] && f[13..15] == b[13..15];
      assert f[2..4] == b[2..4] && f[4..10] == b[4..10];
      var hash := crypto.mac(b[L7_START..len - 9], EncBlock(Device(b[2..4], b[4..10]), b[13..15]), b[11] % 16);
      if hash == None {
        code := InternalHash;
      } else if hash.value[..4] != b[len - 9..len - 5] {
        code := HeadEndAuth;
      }
    }
  }

  /** The two ways a frame is authenticated, and the L7 part deciphered in place. */
  method Open(ctx: Context, b: array<byte>, len: nat, crypto: Crypto) returns (code: Code)
    requires 25 <= len < b.Length && Sound(crypto)
    modifies b
    ensures code == CodeOf(Opened(ctx.config, old(b[..len + 1]), crypto))
    ensures code == Success <==> Opened(ctx.config, old(b[..len + 1]), crypto).Ok?
    ensures code == Success ==> b[L7_START..len - 9] == Opened(ctx.config, old(b[..len + 1]), crypto).value
    ensures b[..L7_START] == old(b[..L7_START]) && b[len - 9..len + 1] == old(b[len - 9..len + 1])
  {
    hide KmacChecked, KencChecked;
    var n := len - 25;
    ghost var f := b[..len + 1];
    assert Body(f) == b[L7_START..L7_START + n] && f[13..15] == b[13..15] && f[2..4] == b[2..4] && f[4..10] == b[4..10];
    if b[11] % 16 == 0 {
      code := CheckKmac(ctx, b, len, crypto);
    } else {
      code := CheckKenc(ctx, b, len, crypto);
      if code != Success {
        return;
      }
      code := CheckKmac(ctx, b, len, crypto);
      if code != Success {
        return;
      }
      var ok := Decrypt(b, n, CipherBlock(Device(b[2..4], b[4..10]), b[13..15], b[1]), b[11] % 16, crypto);
      if !ok {
        code := InternalCiph;
      }
    }
  }

  /** The fields of the message, once the frame has been accepted. */
  method Fill(msg: NetMsg, b: array<byte>, len: nat, ghost f: seq<byte>, ghost plain: seq<byte>, clock: nat, recvData: bool)
    requires msg.Valid() && msg.data != null && msg.data != b && 25 <= len < 255 && len < b.Length
    requires |f| == len + 1 && b[..L7_START] == f[..L7_START] && b[len - 9..len + 1] == f[len - 9..] && b[L7_START..len - 9] == plain
    requires f[1] == INSTPONG || f[1] == COMMAND || (recvData && (f[1] == DATA || f[1] == DATA_PRIO))
    modifies msg, msg.data
    ensures msg.Valid() && msg.Got() == Filled(f, plain, clock)
  {
    assert b[1] == b[..L7_START][1] && b[11] == b[..L7_START][11] && b[13] == b[..L7_START][13] && b[14] == b[..L7_START][14];
    assert b[15] == b[..L7_START][15];
    ghost var tail := b[len - 9..len + 1];
    assert b[len - 9] == tail[0] && b[len - 8] == tail[1] && b[len - 7] == tail[2] && b[len - 6] == tail[3];
    assert b[len - 5] == tail[4] && b[len - 4] == tail[5];
    var size, start := len - 25, L7_START;
    if b[1] == INSTPONG {
      msg.app := Install;
      msg.stamp := Word(b[len - 5], b[len - 4]);
      msg.epoch := 0x10000 * Word(b[len - 9], b[len - 8]) + Word(b[len - 7], b[len - 6]);
    } else {
      if recvData && b[1] == DATA {
        msg.app := Data;
        size, start := size + 1, start - 1;
      } else if recvData && b[1] == DATA_PRIO {
        msg.app := DataPrio;
        size, start := size + 1, start - 1;
      } else {
        msg.app := Admin;
      }
      msg.stamp := Word(b[len - 5], b[len - 4]);
      msg.epoch := clock;
    }
    msg.id := Word(b[13], b[14]);
    msg.keyId := b[11] % 16;
    msg.size := size;
    assert b[start..start + size] == if start == L7_START then plain else [b[15]] + plain;
    Copy(msg.data, 0, b[start..start + size]);
  }

  /** _exchange_extract. */
  method ExchangeExtract(ctx: Context, msg: NetMsg, len: nat, clock: nat, recvData: bool, crypto: Crypto) returns (code: Code)
    requires ctx.Valid() && ctx.buffer != null && msg.Valid() && msg.data != null && msg.data != ctx.buffer && Sound(crypto)
    requires 25 <= len < 255
    modifies ctx.buffer, msg, msg.data
    ensures msg.Valid()
    ensures var r := Parsed(ctx.config, ctx.device, old(ctx.buffer[..len + 1]), clock, recvData, crypto);
      code == CodeOf(r) && (code == Success <==> r.Ok?) && (r.Ok? ==> msg.Got() == r.value)
    ensures code != Success ==> unchanged(msg)
  {
    hide Screened, Opened, Filled;
    var b := ctx.buffer;
    ghost var f := b[..len + 1];
    code := Screen(ctx, b, len, recvData);
    if code != Success {
      return;
    }
    ScreenedKinds(ctx.config, ctx.device, f, recvData);
    code := Open(ctx, b, len, crypto);
    if code != Success {
      return;
    }
    Fill(msg, b, len, f, Opened(ctx.config, f, crypto).value, clock, recvData);
  }

  lemma ScreenedKinds(cfg: Config, d: Device, f: seq<byte>, recvData: bool)
    requires |f| >= 26 && Screened(cfg, d, f, recvData) == Success
    ensures f[1] == INSTPONG || f[1] == COMMAND || (recvData && (f[1] == DATA || f[1] == DATA_PRIO))
  {
  }

  /** Wize_ProtoExtract. No code is given for a frame that goes to the download layer. */
  method ProtoExtract(ctx: Context?, msg: NetMsg?, clock: nat, recvData: bool, crypto: Crypto) returns (code: Option<Code>)
    requires ctx != null ==> ctx.Valid() && ctx.size < 256 && !(0x15 < ctx.size < 25)
    requires msg != null ==> msg.Valid()
    requires ctx != null && msg != null && ctx.buffer != null ==> ctx.buffer != msg.data
    requires Sound(crypto)
    modifies if ctx != null && ctx.buffer != null then {ctx.buffer} else {}
    modifies if msg != null then {msg} else {}, if msg != null && msg.data != null then {msg.data} else {}
    ensures ctx == null || msg == null || ctx.buffer == null || msg.data == null ==> code == Some(InternalNull)
    ensures ctx != null && msg != null && ctx.buffer != null && msg.data != null ==>
      && (ctx.size <= 21 ==> code == Some(FrameSize))
      && (ctx.config.recvMax < ctx.size < 255 && ctx.size > 21 ==> code == Some(AppMsgSize))
    ensures ctx != null && msg != null && ctx.buffer != null && msg.data != null ==>
      match LayerOf(ctx.size, ctx.config.recvMax)
      case DownloadLayer => code == None
      case Refused(c) => code == Some(c) && msg.app == Unknown && msg.size == 0
      case ExchangeLayer =>
        var r := Parsed(ctx.config, ctx.device, [ctx.size] + old(ctx.buffer[1..ctx.size + 1]), clock, recvData, crypto);
        code == Some(CodeOf(r)) && msg.Valid() && if r.Ok? then msg.Got() == r.value else msg.app == Unknown && msg.size == 0
  {
    hide Sound, Parsed;
    code := Some(InternalNull);
    if ctx != null && msg != null && ctx.buffer != null && msg.data != null {
      msg.app := Unknown;
      msg.size := 0;
      ctx.buffer[0] := ctx.size;
      if ctx.size == 0xFF {
        code := None;
      } else {
        if ctx.size > 0x15 {
          if ctx.size <= ctx.config.recvMax {
            assert ctx.buffer[..ctx.size + 1] == [ctx.size] + old(ctx.buffer[1..ctx.size + 1]);
            var c := ExchangeExtract(ctx, msg, ctx.size, clock, recvData, crypto);
            code := Some(c);
          } else {
            code := Some(AppMsgSize);
          }
        } else {
          code := Some(FrameSize);
        }
      }
    }
  }
}
