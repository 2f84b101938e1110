/** The parameter table itself, an array of bytes that accesses copy from and to. */
module ParamTable {
  import opened Bytes
  import opened Params

  class Table {
    const cfg: Config
    const values: array<byte>

    constructor (cfg: Config, defaults: seq<byte>)
      requires WellFormed(cfg, |defaults|)
      ensures Valid() && this.cfg == cfg && fresh(values) && values[..] == defaults
    {
      this.cfg := cfg;
      values := new byte[|defaults|](i requires 0 <= i < |defaults| => defaults[i]);
    }

    predicate Valid() {
      WellFormed(cfg, values.Length)
    }

    /** Param_Init. */
    method Init(defaults: seq<byte>)
      requires |defaults| == values.Length
      modifies values
      ensures values[..] == defaults
    {
      forall i | 0 <= i < |defaults| {
        values[i] := defaults[i];
      }
    }

    /** The walk of _check_conform_enum_ over the table of a restriction. */
    method CheckEnum(r: Restriction, value: nat) returns (ok: bool)
      requires r.nb <= |r.table|
      ensures ok <==> r.width != 0 && value in r.table[..r.nb]
    {
      ok := false;
      var i := 0;
      while i < r.nb
        invariant 0 <= i <= r.nb && !ok && (r.width != 0 ==> value !in r.table[..i])
      {
        if r.width == 0 {
          break;
        }
        if value == r.table[i] {
          assert r.table[..r.nb][i] == value;
          ok := true;
          return;
        }
        assert r.table[..i + 1] == r.table[..i] + [r.table[i]];
        i := i + 1;
      }
    }

    /** Param_CheckConformity. */
    method CheckConformity(id: nat, data: seq<byte>) returns (ok: bool)
      requires Valid() && id < |cfg.access| && |data| >= 8
      ensures ok <==> Conforms(cfg, id, data)
    {
      hide Number;
      ok := true;
      if 0 < cfg.access[id].restId < |cfg.restr| {
        var r := cfg.restr[cfg.access[id].restId];
        assert RestrictionOk(r);
        match r.kind {
          case Modulo =>
            ok := r.table != [] && r.width != 0 && Number(data, r.width) % r.table[0] == 0;
          case Range =>
            ok := r.table != [] && r.width != 0 && r.table[0] <= Number(data, r.width) <= r.table[1];
          case Enum =>
            if r.table == [] {
              ok := false;
            } else {
              ok := CheckEnum(r, Number(data, r.width));
            }
          case OtherKind =>
        }
      }
    }

    /** Param_RemoteAccess in the write direction: a copy into the table when the parameter may be written. */
    method RemoteWrite(id: nat, data: seq<byte>) returns (ok: bool)
      requires Valid() && id < |cfg.access| && |data| == cfg.access[id].size
      modifies values
      ensures ok == cfg.access[id].canWrite && values[..] == Written(cfg, old(values[..]), id, data)
      ensures !cfg.access[id].canWrite ==> values[..] == old(values[..])
      ensures cfg.access[id].canWrite ==> forall i :: 0 <= i < values.Length ==>
        values[i] == var o := cfg.access[id].offset; if o <= i < o + |data| then data[i - o] else old(values[i])
    {
      ok := cfg.access[id].canWrite;
      if ok {
        var offset := cfg.access[id].offset;
        forall i | 0 <= i < |data| {
          values[offset + i] := data[i];
        }
      }
    }

    /** Param_RemoteAccess in the read direction. */
    method RemoteRead(id: nat) returns (ok: bool, data: seq<byte>)
      requires Valid() && id < |cfg.access|
      ensures ok == cfg.access[id].canRead
      ensures ok ==> data == ValueOf(cfg, values[..], id)
    {
      ok, data := cfg.access[id].canRead, [];
      if ok {
        data := values[cfg.access[id].offset..cfg.access[id].offset + cfg.access[id].size];
      }
    }

    /** Param_Access, for which no access is forbidden. */
    method LocalWrite(id: nat, data: seq<byte>)
      requires Valid() && id < |cfg.access| && |data| == cfg.access[id].size
      modifies values
      ensures values[..] == Stored(cfg, old(values[..]), id, data)
    {
      var offset := cfg.access[id].offset;
      forall i | 0 <= i < |data| {
        values[offset + i] := data[i];
      }
    }

    method LocalRead(id: nat) returns (data: seq<byte>)
      requires Valid() && id < |cfg.access|
      ensures data == ValueOf(cfg, values[..], id)
    {
      data := values[cfg.access[id].offset..cfg.access[id].offset + cfg.access[id].size];
    }

    /** The loop of _adm_write_param_: it changes nothing. */
    method CheckCommand(mem: seq<byte>, n: nat) returns (v: Verdict)
      requires Valid() && Readable(mem, n)
      ensures v == Checked(cfg, mem, n, 1)
    {
      hide Conforms;
      v := Fine;
      var at := 1;
      while at < n
        invariant at >= 1 && v == Fine && Checked(cfg, mem, n, 1) == Checked(cfg, mem, n, at)
        decreases n - at
      {
        var id := mem[at];
        if id < |cfg.access| {
          var ok := CheckConformity(id, mem[at + 1..]);
          if !ok {
            return Illegal(id);
          }
          if !cfg.access[id].canWrite {
            if !cfg.access[id].canRead {
              return UnknownParam(id);
            }
            return Denied(id);
          }
          at := at + 1 + cfg.access[id].size;
        } else {
          return UnknownParam(id);
        }
      }
    }

    /** The loop of _ses_disp_postCmd_. */
    method ReplayCommand(mem: seq<byte>, n: nat)
      requires Valid() && Readable(mem, n) && Checked(cfg, mem, n, 1) == Fine
      modifies values
      ensures values[..] == Replayed(cfg, old(values[..]), mem, n, 1)
    {
      hide Conforms, Written;
      var at := 1;
      while at < n
        invariant at >= 1 && Checked(cfg, mem, n, at) == Fine
        invariant Replayed(cfg, values[..], mem, n, at) == Replayed(cfg, old(values[..]), mem, n, 1)
        decreases n - at
      {
        var id := mem[at];
        var size := cfg.access[id].size;
        var ok := RemoteWrite(id, mem[at + 1..at + 1 + size]);
        at := at + 1 + size;
      }
    }
  }
}
