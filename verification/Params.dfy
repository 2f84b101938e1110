/** The parameter table of parameters.c and the remote write command of adm_internal.c and
    ses_dispatcher.c: checked entirely when it is received, replayed when its answer has been sent. */
module Params {
  import opened Bytes

  datatype Kind = Modulo | Range | Enum | OtherKind

  /** restr_s. The width is in bytes, 0 for a size code that is not known; no table is a null one. */
  datatype Restriction = Restriction(kind: Kind, width: nat, nb: nat, table: seq<nat>)

  /** param_s, with the two bits of remote access. */
  datatype Access = Access(offset: nat, size: byte, canRead: bool, canWrite: bool, restId: nat)

  datatype Config = Config(access: seq<Access>, restr: seq<Restriction>)

  /** The tables are such that no check reads behind a restriction table or divides by 0. */
  predicate WellFormed(cfg: Config, room: nat) {
    && |cfg.access| <= 256
    && (forall id :: 0 <= id < |cfg.access| ==> cfg.access[id].offset + cfg.access[id].size <= room)
    && RestrictionsOk(cfg)
  }

  predicate RestrictionsOk(cfg: Config) {
    forall k :: 0 <= k < |cfg.restr| ==> RestrictionOk(cfg.restr[k])
  }

  predicate RestrictionOk(r: Restriction) {
    && r.width in {0, 1, 2, 4, 8}
    && (r.table != [] ==>
      match r.kind
      case Modulo => r.table[0] > 0
      case Range => |r.table| >= 2
      case Enum => r.nb <= |r.table|
      case OtherKind => true)
  }

  /** An unsigned number of w bytes, least significant first. */
  function Number(data: seq<byte>, w: nat): nat
    requires w <= |data|
  {
    if w == 0 then 0 else data[0] + 256 * Number(data[1..], w - 1)
  }

  predicate Restricted(cfg: Config, id: nat)
    requires id < |cfg.access|
  {
    0 < cfg.access[id].restId < |cfg.restr|
  }

  /** What a restriction admits. */
  predicate Admits(r: Restriction, data: seq<byte>)
    requires RestrictionOk(r) && r.width <= |data|
  {
    match r.kind
    case Modulo => r.table != [] && r.width != 0 && Number(data, r.width) % r.table[0] == 0
    case Range => r.table != [] && r.width != 0 && r.table[0] <= Number(data, r.width) <= r.table[1]
    case Enum => r.table != [] && r.width != 0 && Number(data, r.width) in r.table[..r.nb]
    case OtherKind => true
  }

  /** Param_CheckConformity; data are the bytes handed in. */
  predicate Conforms(cfg: Config, id: nat, data: seq<byte>)
    requires RestrictionsOk(cfg) && id < |cfg.access| && |data| >= 8
  {
    Restricted(cfg, id) ==> Admits(cfg.restr[cfg.access[id].restId], data)
  }

  // ---------- a write command ----------

  datatype Verdict = Fine | UnknownParam(id: nat) | Denied(id: nat) | Illegal(id: nat)

  /** A command of n bytes at the start of mem, which is the receive buffer and what lies behind it: a last
      entry may reach over the end of the command. */
  predicate Readable(mem: seq<byte>, n: nat) {
    n < 256 && |mem| >= n + 256
  }

  /** _adm_write_param_ from byte at on. */
  function Checked(cfg: Config, mem: seq<byte>, n: nat, at: nat): Verdict
    requires RestrictionsOk(cfg) && Readable(mem, n)
    decreases n - at
  {
    if at >= n then Fine else
      var id := mem[at];
      if id >= |cfg.access| then UnknownParam(id)
      else if !Conforms(cfg, id, mem[at + 1..]) then Illegal(id)
      else if !cfg.access[id].canWrite then if !cfg.access[id].canRead then UnknownParam(id) else Denied(id)
      else Checked(cfg, mem, n, at + 1 + cfg.access[id].size)
  }

  /** The copy of _param_access_ in the write direction. */
  function Stored(cfg: Config, values: seq<byte>, id: nat, data: seq<byte>): (r: seq<byte>)
    requires WellFormed(cfg, |values|) && id < |cfg.access| && |data| == cfg.access[id].size
    ensures |r| == |values|
  {
    var a := cfg.access[id];
    values[..a.offset] + data + values[a.offset + a.size..]
  }

  /** Param_RemoteAccess in the write direction. */
  function Written(cfg: Config, values: seq<byte>, id: nat, data: seq<byte>): (r: seq<byte>)
    requires WellFormed(cfg, |values|) && id < |cfg.access| && |data| == cfg.access[id].size
    ensures |r| == |values|
  {
    if cfg.access[id].canWrite then Stored(cfg, values, id, data) else values
  }

  /** The loop of _ses_disp_postCmd_ from byte at on. */
  function Replayed(cfg: Config, values: seq<byte>, mem: seq<byte>, n: nat, at: nat): (r: seq<byte>)
    requires WellFormed(cfg, |values|) && Readable(mem, n) && Checked(cfg, mem, n, at) == Fine
    ensures |r| == |values|
    decreases n - at
  {
    if at >= n then values else
      var id := mem[at];
      var size := cfg.access[id].size;
      Replayed(cfg, Written(cfg, values, id, mem[at + 1..at + 1 + size]), mem, n, at + 1 + size)
  }

  /** The entries of a command. */
  datatype Entry = Entry(id: nat, value: seq<byte>)

  function Entries(cfg: Config, mem: seq<byte>, n: nat, at: nat): seq<Entry>
    requires Readable(mem, n)
    decreases n - at
  {
    if at >= n || mem[at] >= |cfg.access| then [] else
      var size := cfg.access[mem[at]].size;
      [Entry(mem[at], mem[at + 1..at + 1 + size])] + Entries(cfg, mem, n, at + 1 + size)
  }

  // ---------- all or nothing ----------

  function ApplyAll(cfg: Config, values: seq<byte>, es: seq<Entry>): (r: seq<byte>)
    requires WellFormed(cfg, |values|)
    requires forall k :: 0 <= k < |es| ==> es[k].id < |cfg.access| && |es[k].value| == cfg.access[es[k].id].size
    ensures |r| == |values|
    decreases |es|
  {
    if es == [] then values else ApplyAll(cfg, Written(cfg, values, es[0].id, es[0].value), es[1..])
  }

  /** An entry the later replay may write: known, writable from remote, and of an admitted value. */
  ghost predicate Authorised(cfg: Config, e: Entry)
    requires RestrictionsOk(cfg)
  {
    && e.id < |cfg.access| && |e.value| == cfg.access[e.id].size && cfg.access[e.id].canWrite
    && (Restricted(cfg, e.id) && cfg.restr[cfg.access[e.id].restId].width <= |e.value| ==>
          Admits(cfg.restr[cfg.access[e.id].restId], e.value))
  }

  ghost predicate AllAuthorised(cfg: Config, es: seq<Entry>)
    requires RestrictionsOk(cfg)
  {
    forall k {:trigger es[k]} :: 0 <= k < |es| ==> Authorised(cfg, es[k])
  }

  lemma {:induction false} NumberPrefix(a: seq<byte>, b: seq<byte>, w: nat)
    requires w <= |a| && w <= |b| && a[..w] == b[..w]
    ensures Number(a, w) == Number(b, w)
  {
    if w > 0 {
      assert a[0] == a[..w][0] && b[0] == b[..w][0];
      assert a[1..][..w - 1] == a[..w][1..] && b[1..][..w - 1] == b[..w][1..];
      NumberPrefix(a[1..], b[1..], w - 1);
    }
  }

  lemma AdmitsPrefix(r: Restriction, a: seq<byte>, b: seq<byte>)
    requires RestrictionOk(r) && r.width <= |a| && r.width <= |b| && a[..r.width] == b[..r.width] && Admits(r, a)
    ensures Admits(r, b)
  {
    NumberPrefix(a, b, r.width);
  }

  lemma SamePrefix(mem: seq<byte>, at: nat, size: nat, w: nat)
    requires w <= size && at + size <= |mem|
    ensures mem[at..][..w] == mem[at..at + size][..w]
  {
    var x, y := mem[at..][..w], mem[at..at + size][..w];
    assert forall i :: 0 <= i < w ==> x[i] == y[i];
  }

  /** A command that has been found fine: every entry is authorised. */
  lemma {:induction false} FineEntries(cfg: Config, mem: seq<byte>, n: nat, at: nat)
    requires RestrictionsOk(cfg) && Readable(mem, n) && Checked(cfg, mem, n, at) == Fine
    ensures AllAuthorised(cfg, Entries(cfg, mem, n, at))
    decreases n - at
  {
    if at < n {
      var id := mem[at];
      var size := cfg.access[id].size;
      var value := mem[at + 1..at + 1 + size];
      FineEntries(cfg, mem, n, at + 1 + size);
      if Restricted(cfg, id) {
        var r := cfg.restr[cfg.access[id].restId];
        assert RestrictionOk(r);
        if r.width <= size {
          SamePrefix(mem, at + 1, size, r.width);
          AdmitsPrefix(r, mem[at + 1..], value);
        }
      }
      assert Authorised(cfg, Entry(id, value));
      assert Entries(cfg, mem, n, at) == [Entry(id, value)] + Entries(cfg, mem, n, at + 1 + size);
    }
  }

  /** The replay walks the same entries as the check and applies them all, in order. */
  lemma {:induction false} ReplayAppliesAll(cfg: Config, values: seq<byte>, mem: seq<byte>, n: nat, at: nat)
    requires WellFormed(cfg, |values|) && Readable(mem, n) && Checked(cfg, mem, n, at) == Fine
    requires AllAuthorised(cfg, Entries(cfg, mem, n, at))
    ensures Replayed(cfg, values, mem, n, at) == ApplyAll(cfg, values, Entries(cfg, mem, n, at))
    decreases n - at
  {
    if at < n {
      var id := mem[at];
      var size := cfg.access[id].size;
      var value := mem[at + 1..at + 1 + size];
      var rest := Entries(cfg, mem, n, at + 1 + size);
      assert Entries(cfg, mem, n, at) == [Entry(id, value)] + rest;
      FineEntries(cfg, mem, n, at + 1 + size);
      ReplayAppliesAll(cfg, Written(cfg, values, id, value), mem, n, at + 1 + size);
      assert Entries(cfg, mem, n, at)[1..] == rest;
    }
  }

  /** What a remote write command does to the table, once its answer has been sent. */
  function Commanded(cfg: Config, values: seq<byte>, mem: seq<byte>, n: nat): (r: seq<byte>)
    requires WellFormed(cfg, |values|) && Readable(mem, n)
    ensures |r| == |values|
  {
    if Checked(cfg, mem, n, 1) == Fine then Replayed(cfg, values, mem, n, 1) else values
  }

  /** All of its entries, each of them authorised, or nothing. */
  lemma AllOrNothing(cfg: Config, values: seq<byte>, mem: seq<byte>, n: nat)
    requires WellFormed(cfg, |values|) && Readable(mem, n)
    ensures Checked(cfg, mem, n, 1) != Fine ==> Commanded(cfg, values, mem, n) == values
    ensures Checked(cfg, mem, n, 1) == Fine ==>
      && AllAuthorised(cfg, Entries(cfg, mem, n, 1))
      && Commanded(cfg, values, mem, n) == ApplyAll(cfg, values, Entries(cfg, mem, n, 1))
  {
    if Checked(cfg, mem, n, 1) == Fine {
      FineEntries(cfg, mem, n, 1);
      ReplayAppliesAll(cfg, values, mem, n, 1);
    }
  }

  // ---------- the table always conforms ----------

  /** No two parameters overlap, and a restriction is as wide as its parameter. */
  ghost predicate Separate(cfg: Config)
    requires RestrictionsOk(cfg)
  {
    && (forall i: nat, j: nat :: i < |cfg.access| && j < |cfg.access| && i != j ==>
          cfg.access[i].offset + cfg.access[i].size <= cfg.access[j].offset || cfg.access[j].offset + cfg.access[j].size <= cfg.access[i].offset)
    && (forall i: nat :: i < |cfg.access| && Restricted(cfg, i) ==> cfg.restr[cfg.access[i].restId].width == cfg.access[i].size)
  }

  function ValueOf(cfg: Config, values: seq<byte>, id: nat): (v: seq<byte>)
    requires WellFormed(cfg, |values|) && id < |cfg.access|
    ensures |v| == cfg.access[id].size
  {
    values[cfg.access[id].offset..cfg.access[id].offset + cfg.access[id].size]
  }

  ghost predicate AllConform(cfg: Config, values: seq<byte>)
    requires WellFormed(cfg, |values|) && Separate(cfg)
  {
    forall id: nat :: id < |cfg.access| && Restricted(cfg, id) ==> Admits(cfg.restr[cfg.access[id].restId], ValueOf(cfg, values, id))
  }

  /** A known parameter, and as many bytes as it has. */
  predicate Fits(cfg: Config, e: Entry) {
    e.id < |cfg.access| && |e.value| == cfg.access[e.id].size
  }

  /** A write changes the value of its own parameter only. */
  lemma StoredValues(cfg: Config, values: seq<byte>, e: Entry, id: nat)
    requires WellFormed(cfg, |values|) && Separate(cfg) && Fits(cfg, e) && id < |cfg.access|
    ensures ValueOf(cfg, Stored(cfg, values, e.id, e.value), id) == if id == e.id then e.value else ValueOf(cfg, values, id)
  {
    var a, b := cfg.access[e.id], cfg.access[id];
    var r := Stored(cfg, values, e.id, e.value);
    assert forall i :: 0 <= i < |r| ==>
      r[i] == if a.offset <= i < a.offset + a.size then e.value[i - a.offset] else values[i];
    assert id != e.id ==> a.offset + a.size <= b.offset || b.offset + b.size <= a.offset;
  }

  /** A write of an admitted value keeps every restricted parameter conforming. */
  lemma StoreKeepsConform(cfg: Config, values: seq<byte>, e: Entry)
    requires WellFormed(cfg, |values|) && Separate(cfg) && AllConform(cfg, values) && Fits(cfg, e)
    requires Restricted(cfg, e.id) ==> Admits(cfg.restr[cfg.access[e.id].restId], e.value)
    ensures AllConform(cfg, Stored(cfg, values, e.id, e.value))
  {
    hide Stored, ValueOf, Admits;
    forall id: nat | id < |cfg.access| && Restricted(cfg, id)
      ensures Admits(cfg.restr[cfg.access[id].restId], ValueOf(cfg, Stored(cfg, values, e.id, e.value), id))
    {
      StoredValues(cfg, values, e, id);
    }
  }

  lemma {:induction false} ApplyKeepsConform(cfg: Config, values: seq<byte>, es: seq<Entry>)
    requires WellFormed(cfg, |values|) && Separate(cfg) && AllConform(cfg, values)
    requires AllAuthorised(cfg, es)
    ensures AllConform(cfg, ApplyAll(cfg, values, es))
    decreases |es|
  {
    if es != [] {
      hide Stored, Admits;
      StoreKeepsConform(cfg, values, es[0]);
      ApplyKeepsConform(cfg, Written(cfg, values, es[0].id, es[0].value), es[1..]);
    }
  }

  /** A run of remote commands, each with what the receive buffer then holds. */
  datatype Command = Command(mem: seq<byte>, n: nat)

  function CommandedAll(cfg: Config, values: seq<byte>, run: seq<Command>): (r: seq<byte>)
    requires WellFormed(cfg, |values|) && forall k :: 0 <= k < |run| ==> Readable(run[k].mem, run[k].n)
    ensures |r| == |values|
    decreases |run|
  {
    if run == [] then values else CommandedAll(cfg, Commanded(cfg, values, run[0].mem, run[0].n), run[1..])
  }

  /** A write command keeps every restricted parameter conforming. */
  lemma CommandKeepsConform(cfg: Config, values: seq<byte>, mem: seq<byte>, n: nat)
    requires WellFormed(cfg, |values|) && Separate(cfg) && AllConform(cfg, values) && Readable(mem, n)
    ensures AllConform(cfg, Commanded(cfg, values, mem, n))
  {
    hide Commanded, AllConform, Checked;
    AllOrNothing(cfg, values, mem, n);
    if Checked(cfg, mem, n, 1) == Fine {
      ApplyKeepsConform(cfg, values, Entries(cfg, mem, n, 1));
    }
  }

  /** From conforming defaults, whatever is sent: every restricted parameter conforms for ever. */
  lemma {:induction false} AlwaysConforms(cfg: Config, values: seq<byte>, run: seq<Command>)
    requires WellFormed(cfg, |values|) && Separate(cfg) && AllConform(cfg, values)
    requires forall k :: 0 <= k < |run| ==> Readable(run[k].mem, run[k].n)
    ensures AllConform(cfg, CommandedAll(cfg, values, run))
    decreases |run|
  {
    if run != [] {
      var c := run[0];
      CommandKeepsConform(cfg, values, c.mem, c.n);
      AlwaysConforms(cfg, Commanded(cfg, values, c.mem, c.n), run[1..]);
    }
  }
}
