/** The firmware image store of img_storage.c: 210-byte blocks, in any order, into a flash that takes
    aligned double words only, with the unaligned ends kept in pending slots. Flash addresses are
    offsets from u32Addr, which ImgStore_Setup only accepts as a multiple of 8. */
module ImgStore {
  import opened Bytes
  import opened ImgLayout
  import opened ImgBitmap

  const BLOCK_NB := 809
  const BITMAP_SZ := 101
  const PENDING_LINE_NB := 25
  const PENDING_BYTES := 24
  const IMG_SZ := 169984
  const LINE_WORDS := 105

  /** u8NbPendAtStart and u8NbPendAtEnd. */
  function StartPad(k: nat): nat
    requires k < 4
  {
    if k == 0 then 0 else if k == 1 then 6 else if k == 2 then 4 else 2
  }

  function EndPad(k: nat): nat
    requires k < 4
  {
    if k == 0 then 2 else if k == 1 then 4 else if k == 2 then 6 else 0
  }

  /** Double word d of line n. */
  function Word(n: nat, d: nat): nat {
    LINE_WORDS * n + d
  }

  /** The first double word that block k of a line fills on its own, and the one it shares with the next. */
  function OwnWord(k: nat): nat
    requires k < 4
  {
    (BLOCK_SZ * k + StartPad(k)) / 8
  }

  function SharedWord(k: nat): nat
    requires k < 3
  {
    (BLOCK_SZ * (k + 1) - EndPad(k)) / 8
  }

  /** The word of byte i of block id. */
  function WordAt(id: nat, i: nat): nat {
    (BLOCK_SZ * id + i) / 8
  }

  /** The double words of a line that must be in flash: those of its stored blocks, those shared by
      two stored blocks, and the padded end of the very last block of a partial line. */
  predicate Due(stored: set<nat>, expected: nat, n: nat, d: nat) {
    if d < 26 then 4 * n in stored
    else if d == 26 then SharedDue(stored, expected, 4 * n)
    else if d < 52 then 4 * n + 1 in stored
    else if d == 52 then SharedDue(stored, expected, 4 * n + 1)
    else if d < 78 then 4 * n + 2 in stored
    else if d == 78 then SharedDue(stored, expected, 4 * n + 2)
    else 4 * n + 3 in stored
  }

  predicate SharedDue(stored: set<nat>, expected: nat, id: nat) {
    id in stored && (id + 1 in stored || (expected % 4 != 0 && id + 1 == expected))
  }

  /** The block and the byte in it that byte b of the shared word k of line n belongs to. */
  function CellBlock(n: nat, k: nat, b: nat): nat
    requires k < 3
  {
    if b < EndPad(k) then 4 * n + k else 4 * n + k + 1
  }

  function CellByte(k: nat, b: nat): nat
    requires k < 3 && b < 8
  {
    if b < EndPad(k) then BLOCK_SZ - EndPad(k) + b else b - EndPad(k)
  }

  function Slot(n: nat): nat {
    n % SLOTS
  }

  class Context {
    const pend: array2<byte>
    const ids: array<nat>
    const empty: array<bool>
    const bitmap: array<bv8>
    const flash: array<byte>
    var expected: nat
    var count: nat
    var idle: bool
    ghost var stored: map<nat, seq<byte>>
    ghost var programmed: set<nat>

    constructor ()
      ensures fresh(pend) && fresh(ids) && fresh(empty) && fresh(bitmap) && fresh(flash)
      ensures Sizes()
    {
      pend := new byte[PENDING_LINE_NB, PENDING_BYTES];
      ids := new nat[PENDING_LINE_NB];
      empty := new bool[PENDING_LINE_NB];
      bitmap := new bv8[BITMAP_SZ];
      flash := new byte[IMG_SZ];
    }

    ghost predicate Sizes() {
      && pend.Length0 == PENDING_LINE_NB && pend.Length1 == PENDING_BYTES
      && ids.Length == PENDING_LINE_NB && empty.Length == PENDING_LINE_NB
      && bitmap.Length == BITMAP_SZ && flash.Length == IMG_SZ
    }

    /** Byte b of the shared word k in a slot. */
    function Cell(slot: nat, k: nat, b: nat): byte
      requires Sizes() && slot < PENDING_LINE_NB && k < 3 && b < 8
      reads pend
    {
      pend[slot, 8 * k + b]
    }

    /** The bitmap is the set of stored blocks. */
    ghost predicate BitmapOk()
      requires Sizes()
      reads this`stored, bitmap
    {
      forall id :: 0 <= id < BLOCK_MAX ==> (Bit(bitmap[id / 8], id % 8) <==> id in stored)
    }

    /** A begun line owns its slot; a slot in use belongs to a begun line. */
    ghost predicate SlotsOk()
      requires Sizes()
      reads this`stored, ids, empty
    {
      && (forall n: nat :: Occupies(stored.Keys, n) ==> !empty[Slot(n)] && ids[Slot(n)] == 4 * n)
      && (forall s :: 0 <= s < SLOTS && !empty[s] ==>
            ids[s] % 4 == 0 && Slot(ids[s] / 4) == s && Occupies(stored.Keys, ids[s] / 4))
    }

    /** A slot holds the unaligned ends of the stored blocks of its line. */
    ghost predicate PendingOk()
      requires Sizes()
      reads this`stored, pend
    {
      forall n: nat, k: nat, b: nat :: Occupies(stored.Keys, n) && k < 3 && b < 8 && CellBlock(n, k, b) in stored
        && |stored[CellBlock(n, k, b)]| == BLOCK_SZ
        ==> Cell(Slot(n), k, b) == stored[CellBlock(n, k, b)][CellByte(k, b)]
    }

    /** The same for one line, full or not. */
    ghost predicate LineCells(n: nat)
      requires Sizes()
      reads this`stored, pend
    {
      forall k: nat, b: nat :: k < 3 && b < 8 && CellBlock(n, k, b) in stored && |stored[CellBlock(n, k, b)]| == BLOCK_SZ
        ==> Cell(Slot(n), k, b) == stored[CellBlock(n, k, b)][CellByte(k, b)]
    }

    ghost predicate BlocksOk()
      reads this`stored
    {
      forall id :: id in stored ==> id < BLOCK_MAX && |stored[id]| == BLOCK_SZ
    }

    /** Every programmed byte of a stored block is the block's. */
    ghost predicate FlashOk()
      requires Sizes() && BlocksOk()
      reads this`stored, this`programmed, flash
    {
      forall id, i :: id in stored && 0 <= i < BLOCK_SZ && WordAt(id, i) in programmed
        ==> flash[BLOCK_SZ * id + i] == stored[id][i]
    }

    /** Exactly the due words have been programmed. */
    ghost predicate WordsOk()
      reads this`stored, this`expected, this`programmed
    {
      forall n, d :: 0 <= n && 0 <= d < LINE_WORDS ==> (Word(n, d) in programmed <==> Due(stored.Keys, expected, n, d))
    }

    /** Behind the very last block of a partial line there are only bytes 0xFF up to the end of its double word. */
    ghost predicate PadOk()
      reads this`stored, this`expected, flash
    {
      expected % 4 != 0 && expected - 1 in stored ==> Padded(expected, flash[..])
    }

    /** No word is shared by the padding and a stored block. */
    ghost predicate PaddingOk()
      reads this`stored, this`expected
    {
      expected <= BLOCK_MAX && Apart(stored.Keys, expected)
    }

    ghost predicate Valid()
      reads this, pend, ids, empty, bitmap, flash
    {
      && Sizes() && PaddingOk() && BlocksOk()
      && Consistent(stored.Keys, BLOCK_MAX)
      && BitmapOk() && SlotsOk() && PendingOk() && FlashOk() && WordsOk() && PadOk()
      && count == Score(stored.Keys, expected, LINES)
    }

    // ---------- the flash ----------

    /** The flash driver: whole double words, on a multiple of 8, each programmed once after an erase. */
    method Write(addr: nat, data: seq<byte>)
      requires Sizes() && addr % 8 == 0 && |data| % 8 == 0 && addr + |data| <= IMG_SZ
      requires Words(addr / 8, |data| / 8) !! programmed
      modifies this`programmed, flash
      ensures programmed == old(programmed) + Words(addr / 8, |data| / 8)
      ensures forall p :: 0 <= p < IMG_SZ ==>
        flash[p] == if addr <= p < addr + |data| then data[p - addr] else old(flash[p])
    {
      forall p | addr <= p < addr + |data| {
        flash[p] := data[p - addr];
      }
      programmed := programmed + Words(addr / 8, |data| / 8);
    }

    /** The data hold the bytes of the stored blocks in the range that starts at addr. */
    ghost predicate DataOk(addr: nat, data: seq<byte>)
      requires BlocksOk()
      reads this`stored
    {
      forall id, i :: id in stored && 0 <= i < BLOCK_SZ && addr <= BLOCK_SZ * id + i < addr + |data| ==>
        data[BLOCK_SZ * id + i - addr] == stored[id][i]
    }

    /** A write whose data are what the stored blocks say. */
    method Program(addr: nat, data: seq<byte>)
      requires Sizes() && addr % 8 == 0 && |data| % 8 == 0 && addr + |data| <= IMG_SZ
      requires Words(addr / 8, |data| / 8) !! programmed
      requires BlocksOk() && FlashOk()
      requires DataOk(addr, data)
      modifies this`programmed, flash
      ensures programmed == old(programmed) + Words(addr / 8, |data| / 8)
      ensures FlashOk() && Kept(old(flash[..]), old(programmed), flash[..])
      ensures forall b :: 0 <= b < |data| ==> flash[addr + b] == data[b]
    {
      Write(addr, data);
    }

    // ---------- StoreBlock ----------

    /** The unaligned ends of block k of line n go to its slot. */
    method FillPending(slot: nat, n: nat, k: nat, blk: array<byte>)
      requires Sizes() && slot < SLOTS && k < 4 && blk.Length == BLOCK_SZ && blk != flash
      modifies pend
      ensures forall j, b :: 0 <= j < 3 && 0 <= b < 8 ==>
        Cell(slot, j, b) == if CellBlock(n, j, b) == 4 * n + k then blk[CellByte(j, b)] else old(Cell(slot, j, b))
      ensures forall t, j, b :: 0 <= t < SLOTS && t != slot && 0 <= j < 3 && 0 <= b < 8 ==> Cell(t, j, b) == old(Cell(t, j, b))
    {
      var start, end := StartPad(k), EndPad(k);
      var at := 8 * k;
      var i := 0;
      while i < end
        invariant 0 <= i <= end
        invariant forall t, c :: 0 <= t < PENDING_LINE_NB && 0 <= c < PENDING_BYTES ==>
          pend[t, c] == if t == slot && at <= c < at + i then blk[BLOCK_SZ - end + c - at] else old(pend[t, c])
      {
        pend[slot, at + i] := blk[BLOCK_SZ - end + i];
        i := i + 1;
      }
      at := at - start;
      i := 0;
      while i < start
        invariant 0 <= i <= start
        invariant forall t, c :: 0 <= t < PENDING_LINE_NB && 0 <= c < PENDING_BYTES ==>
          pend[t, c] == if t == slot && at <= c < at + i then blk[c - at]
                        else if t == slot && 8 * k <= c < 8 * k + end then blk[BLOCK_SZ - end + c - 8 * k]
                        else old(pend[t, c])
      {
        pend[slot, at + i] := blk[i];
        i := i + 1;
      }
    }

    /** The double word k of a slot. */
    function SlotWord(slot: nat, k: nat): (w: seq<byte>)
      requires Sizes() && slot < SLOTS && k < 3
      reads pend
      ensures |w| == 8 && forall b :: 0 <= b < 8 ==> w[b] == Cell(slot, k, b)
    {
      seq(8, b requires 0 <= b < 8 reads pend => Cell(slot, k, b))
    }

    // ---------- the invariant, one block later ----------

    /** All of Valid but the slot of the line of id, which has just been claimed or was the line's already. */
    ghost predicate Claimed(id: nat)
      reads this, pend, ids, empty, bitmap, flash
    {
      && Sizes() && PaddingOk() && BlocksOk()
      && Consistent(stored.Keys, BLOCK_MAX) && Accepts(stored.Keys, id) && id < BLOCK_MAX && Apart(stored.Keys + {id}, expected)
      && BitmapOk() && PendingOk() && FlashOk() && WordsOk() && PadOk()
      && count == Score(stored.Keys, expected, LINES)
      && SlotsFor(stored.Keys, id)
    }

    /** The slots in use are those of the begun lines, and the one of the line of id. */
    ghost predicate SlotsFor(was: set<nat>, id: nat)
      requires Sizes()
      reads ids, empty
    {
      && !empty[Slot(id / 4)] && ids[Slot(id / 4)] == 4 * (id / 4)
      && (forall n: nat :: Occupies(was, n) ==> !empty[Slot(n)] && ids[Slot(n)] == 4 * n)
      && (forall s :: 0 <= s < SLOTS && s != Slot(id / 4) && !empty[s] ==>
            ids[s] % 4 == 0 && Slot(ids[s] / 4) == s && Occupies(was, ids[s] / 4))
    }

    /** The block joins the stored ones: its ends are in the slot, and none of its words is programmed yet. */
    method Enter(id: nat, slot: nat, blk: array<byte>)
      requires Claimed(id) && slot == Slot(id / 4) && blk.Length == BLOCK_SZ && blk != flash
      modifies pend, this`stored
      ensures stored == old(stored)[id := blk[..]]
      ensures BlocksOk() && FlashOk() && PendingOk() && LineCells(id / 4)
    {
      ghost var before, after := stored, stored[id := blk[..]];
      FillPending(slot, id / 4, id % 4, blk);
      forall n: nat, k: nat, b: nat | (Occupies(after.Keys, n) || n == id / 4) && k < 3 && b < 8 && CellBlock(n, k, b) in after
        ensures Cell(Slot(n), k, b) == after[CellBlock(n, k, b)][CellByte(k, b)]
      {
        KeysAfter(before, id, blk[..]);
        EnteredCell(before.Keys, id, n, k, b);
      }
      forall i | 0 <= i < BLOCK_SZ
        ensures WordAt(id, i) !in programmed
      {
        NotYetDue(before.Keys, expected, id, i);
      }
      stored := after;
    }

    /** Bit id of the bitmap is set. */
    method SetBitmap(id: nat)
      requires Sizes() && id < BLOCK_MAX
      requires forall i :: 0 <= i < BLOCK_MAX && i != id ==> (Bit(bitmap[i / 8], i % 8) <==> i in stored)
      requires id in stored
      modifies bitmap
      ensures BitmapOk()
    {
      ghost var was := bitmap[id / 8];
      bitmap[id / 8] := bitmap[id / 8] | Mask(id % 8);
      forall i | 0 <= i < BLOCK_MAX
        ensures Bit(bitmap[i / 8], i % 8) <==> i in stored
      {
        if i / 8 == id / 8 {
          SetBit(was, id % 8, i % 8);
          assert i == 8 * (i / 8) + i % 8 && id == 8 * (id / 8) + id % 8;
        }
      }
    }

    /** The tests on the bitmap line, for block k of the line at base + h. */
    lemma LineTestsAt(base: nat, h: nat, k: nat)
      requires Sizes() && BitmapOk() && base % 8 == 0 && (h == 0 || h == 4) && k < 4 && base + 8 <= BLOCK_MAX
      requires base + h + k in stored
      ensures PairAfter(Nibble(bitmap[base / 8], h + k), k) <==> k < 3 && base + h + k + 1 in stored
      ensures PairBefore(Nibble(bitmap[base / 8], h + k), k) <==> k > 0 && base + h + k - 1 in stored
      ensures Nibble(bitmap[base / 8], h + k) & 0x0F == 0x0F <==>
        base + h in stored && base + h + 1 in stored && base + h + 2 in stored && base + h + 3 in stored
    {
      hide Bit, Mask, Nibble, PairAfter, PairBefore, BitmapOk;
      LineTests(bitmap[base / 8], h + k);
      assert (h + k) / 4 == h / 4 && (h + k) % 4 == k;
      BitOf(base + h, base, h);
      BitOf(base + h + 1, base, h + 1);
      BitOf(base + h + 2, base, h + 2);
      BitOf(base + h + 3, base, h + 3);
    }

    /** What the three tests on the bitmap line say of the stored blocks. */
    lemma LineTestsOk(id: nat, line: bv8)
      requires Sizes() && BitmapOk() && id in stored && id < BLOCK_MAX && line == Nibble(bitmap[id / 8], id % 8)
      ensures PairAfter(line, id % 4) <==> id % 4 < 3 && id + 1 in stored
      ensures PairBefore(line, id % 4) <==> id % 4 > 0 && id - 1 in stored
      ensures line & 0x0F == 0x0F <==> LineFull(stored.Keys, id / 4)
    {
      hide Bit, Mask, Nibble, PairAfter, PairBefore, BitmapOk;
      var base, h, k := 8 * (id / 8), 4 * (id % 8 / 4), id % 4;
      assert id == base + h + k && id % 8 == h + k && 4 * (id / 4) == base + h;
      LineTestsAt(base, h, k);
    }

    lemma BitOf(id: nat, base: nat, i: nat)
      requires Sizes() && BitmapOk() && i < 8 && base % 8 == 0 && id == base + i && id < BLOCK_MAX
      ensures id / 8 == base / 8 && (Bit(bitmap[base / 8], i) <==> id in stored)
    {
      hide Bit;
      assert id / 8 == base / 8 && id % 8 == i;
    }

    /** A stretch of block id holds bytes of that block only. */
    lemma AlignedData(id: nat, start: nat, size: nat)
      requires BlocksOk() && id in stored && start + size <= BLOCK_SZ
      ensures DataOk(BLOCK_SZ * id + start, stored[id][start..start + size])
    {
      forall q, i | q in stored && 0 <= i < BLOCK_SZ && BLOCK_SZ * id + start <= BLOCK_SZ * q + i < BLOCK_SZ * id + start + size
        ensures q == id && stored[q][i] == stored[id][i]
      {
      }
    }

    /** The aligned part of the block goes to flash. */
    method WriteAligned(id: nat, blk: seq<byte>)
      requires Sizes() && BlocksOk() && FlashOk()
      requires id in stored && stored[id] == blk && |blk| == BLOCK_SZ && id < BLOCK_MAX
      requires OwnWords(id) !! programmed
      modifies this`programmed, flash
      ensures FlashOk() && Kept(old(flash[..]), old(programmed), flash[..])
      ensures programmed == old(programmed) + OwnWords(id)
    {
      hide OwnWords, OwnWord, Words, Word, FlashOk, BlocksOk, DataOk, Kept;
      var start, end := StartPad(id % 4), EndPad(id % 4);
      var address := BLOCK_SZ * id + start;
      var size := (BLOCK_SZ - start - end) / 8;
      OwnGeometry(id, address, size);
      var data := blk[start..start + 8 * size];
      AlignedData(id, start, 8 * size);
      Program(address, data);
    }

    /** A word shared by two blocks goes from its slot to flash. */
    method WriteShared(addr: nat, slot: nat, n: nat, k: nat)
      requires Sizes() && BlocksOk() && FlashOk() && k < 3 && slot == Slot(n)
      requires addr == 8 * Word(n, SharedWord(k)) && addr + 8 <= IMG_SZ && Word(n, SharedWord(k)) !in programmed
      requires LineCells(n)
      modifies this`programmed, flash
      ensures FlashOk() && Kept(old(flash[..]), old(programmed), flash[..])
      ensures programmed == old(programmed) + {Word(n, SharedWord(k))}
      ensures forall b :: 0 <= b < 8 ==> flash[addr + b] == Cell(slot, k, b)
    {
      hide Kept;
      var data := SlotWord(slot, k);
      forall id, i | id in stored && 0 <= i < BLOCK_SZ && addr <= BLOCK_SZ * id + i < addr + |data|
        ensures data[BLOCK_SZ * id + i - addr] == stored[id][i]
      {
        SharedBytes(n, k, id, i);
      }
      Program(addr, data);
    }

    /** The words that block id shares with stored neighbours, each with its increment of u32NbBlk. */
    method WritePairs(id: nat, slot: nat, line: bv8)
      requires Sizes() && BlocksOk() && FlashOk() && LineCells(id / 4)
      requires id < BLOCK_MAX && slot == Slot(id / 4)
      requires PairAfter(line, id % 4) <==> id % 4 < 3 && id + 1 in stored
      requires PairBefore(line, id % 4) <==> id % 4 > 0 && id - 1 in stored
      requires PairWords(stored.Keys, id) !! programmed
      modifies this`count, this`programmed, flash
      ensures FlashOk() && Kept(old(flash[..]), old(programmed), flash[..])
      ensures programmed == old(programmed) + PairWords(stored.Keys, id)
      ensures count == old(count) + One(id % 4 < 3 && id + 1 in stored) + One(id % 4 > 0 && id - 1 in stored)
    {
      var n, k := id / 4, id % 4;
      var start, end := StartPad(k), EndPad(k);
      var address := BLOCK_SZ * id;
      Geometry(id);
      InImage(id);
      hide PairAfter, PairBefore, FlashOk, LineCells, BlocksOk, StartPad, EndPad, SharedWord, Kept;
      ghost var was, before := flash[..], programmed;
      KeptSame(was, before);
      if PairAfter(line, k) {
        WriteShared(address + BLOCK_SZ - end, slot, n, k);
        count := count + 1;
      }
      if PairBefore(line, k) {
        ghost var mid, between := flash[..], programmed;
        WriteShared(address - 8 + start, slot, n, k - 1);
        KeptThen(was, before, mid, between, flash[..]);
        count := count + 1;
      }
    }

    /** The very last block of a partial line is padded with 0xFF: those cells belong to no stored block. */
    method Pad(id: nat, slot: nat)
      requires Sizes() && PaddingOk() && BlocksOk() && LineCells(id / 4) && PendingOk()
      requires Consistent(stored.Keys, BLOCK_MAX) && id in stored && id + 1 == expected && expected % 4 != 0
      requires slot == Slot(id / 4)
      modifies pend
      ensures LineCells(id / 4) && PendingOk()
      ensures forall b :: EndPad(id % 4) <= b < 8 ==> Cell(slot, id % 4, b) == 0xFF
    {
      var n, k := id / 4, id % 4;
      var i := EndPad(k);
      while i < 8
        invariant EndPad(k) <= i <= 8
        invariant forall t, c :: 0 <= t < PENDING_LINE_NB && 0 <= c < PENDING_BYTES ==>
          pend[t, c] == if t == slot && 8 * k + EndPad(k) <= c < 8 * k + i then 0xFF else old(pend[t, c])
      {
        pend[slot, 8 * k + i] := 0xFF;
        i := i + 1;
      }
      forall m: nat, j: nat, b: nat | (Occupies(stored.Keys, m) || m == n) && j < 3 && b < 8 && CellBlock(m, j, b) in stored
        ensures Cell(Slot(m), j, b) == old(Cell(Slot(m), j, b))
      {
        LastCells(stored.Keys, expected, id, m, j, b);
      }
    }

    /** ... and goes to flash. */
    method WriteLast(id: nat, slot: nat)
      requires PaddingOk() && Sizes() && BlocksOk() && FlashOk() && LineCells(id / 4) && PendingOk()
      requires Consistent(stored.Keys, BLOCK_MAX) && id in stored && slot == Slot(id / 4)
      requires LastWord(expected, id) !! programmed
      modifies pend, this`count, this`programmed, flash
      ensures FlashOk() && PendingOk() && Kept(old(flash[..]), old(programmed), flash[..])
      ensures expected % 4 != 0 && id == expected - 1 ==> Padded(expected, flash[..])
      ensures programmed == old(programmed) + LastWord(expected, id)
      ensures count == old(count) + One(expected % 4 != 0 && id == expected - 1)
    {
      hide FlashOk, LineCells, PendingOk, Consistent, Kept, Padded;
      KeptSame(flash[..], programmed);
      if expected % 4 != 0 {
        if id == expected - 1 {
          var k := id % 4;
          Geometry(id);
          InImage(id);
          Pad(id, slot);
          hide BlocksOk, StartPad, EndPad, SharedWord;
          ghost var addr := BLOCK_SZ * id + BLOCK_SZ - EndPad(k);
          WriteShared(BLOCK_SZ * id + BLOCK_SZ - EndPad(k), slot, id / 4, k);
          forall p | addr + EndPad(k) <= p < addr + 8
            ensures flash[..][p] == 0xFF
          {
            assert Cell(slot, k, p - addr) == 0xFF;
          }
          PaddedFrom(expected, flash[..], addr, EndPad(k));
          count := count + 1;
        }
      }
    }

    /** The block's bytes: its ends to the slot, the rest to flash, its bit to the bitmap. */
    method TakeBytes(id: nat, slot: nat, blk: array<byte>)
      requires Claimed(id) && slot == Slot(id / 4) && blk.Length == BLOCK_SZ && blk != flash
      modifies pend, bitmap, flash, this`stored, this`programmed
      ensures stored == old(stored)[id := blk[..]] && stored.Keys == old(stored.Keys) + {id}
      ensures BlocksOk() && FlashOk() && PendingOk() && LineCells(id / 4) && BitmapOk()
      ensures programmed == old(programmed) + OwnWords(id) && Kept(old(flash[..]), old(programmed), flash[..])
    {
      ghost var keys := stored.Keys;
      var data := blk[..];
      NewWordsFresh(keys, expected, id, programmed);
      KeysAfter(stored, id, data);
      hide NewWords, FlashOk, LineCells, PendingOk, WordsOk, BlocksOk, StartPad, EndPad, Consistent, Score, Kept;
      Enter(id, slot, blk);
      assert stored.Keys - {id} == keys;
      WriteAligned(id, data);
      SetBitmap(id);
    }

    /** The nibble of the block's line. */
    method ReadLine(id: nat) returns (line: bv8)
      requires Sizes() && BitmapOk() && id in stored && id < BLOCK_MAX
      ensures PairAfter(line, id % 4) <==> id % 4 < 3 && id + 1 in stored
      ensures PairBefore(line, id % 4) <==> id % 4 > 0 && id - 1 in stored
      ensures line & 0x0F == 0x0F <==> LineFull(stored.Keys, id / 4)
    {
      hide PairAfter, PairBefore, Nibble, LineFull, BitmapOk;
      line := Nibble(bitmap[id / 8], id % 8);
      LineTestsOk(id, line);
    }

    /** Its shared words: to flash as soon as both blocks are there. */
    method TakeShared(id: nat, slot: nat, ghost was: set<nat>) returns (line: bv8)
      requires Sizes() && PaddingOk() && BlocksOk() && FlashOk() && PendingOk() && LineCells(id / 4) && BitmapOk()
      requires id !in was && id < BLOCK_MAX && stored.Keys == was + {id} && Consistent(stored.Keys, BLOCK_MAX) && slot == Slot(id / 4)
      requires NewWords(was, expected, id) - OwnWords(id) !! programmed
      modifies pend, flash, this`programmed, this`count
      ensures BlocksOk() && FlashOk() && PendingOk() && BitmapOk() && Kept(old(flash[..]), old(programmed), flash[..])
      ensures expected % 4 != 0 && id == expected - 1 ==> Padded(expected, flash[..])
      ensures programmed == old(programmed) + (NewWords(was, expected, id) - OwnWords(id))
      ensures line & 0x0F == 0x0F <==> LineFull(stored.Keys, id / 4)
      ensures count == old(count) + Gain(was, expected, id)
    {
      hide NewWords, OwnWords, PairWords, LastWord, FlashOk, LineCells, PendingOk, BlocksOk, StartPad, EndPad, Consistent, Score, BitmapOk,
        PairAfter, PairBefore, SharedWord, LineFull, Kept, Padded;
      NewWordsParts(was, expected, id);
      line := ReadLine(id);
      ghost var before, begin := programmed, flash[..];
      WritePairs(id, slot, line);
      ghost var mid, between := flash[..], programmed;
      WriteLast(id, slot);
      KeptThen(begin, before, mid, between, flash[..]);
    }

    /** A full line gives its slot back. */
    method Release(id: nat, slot: nat, line: bv8, ghost was: set<nat>)
      requires Sizes() && slot == Slot(id / 4) && id !in was && stored.Keys == was + {id} && Accepts(was, id)
      requires line & 0x0F == 0x0F <==> LineFull(stored.Keys, id / 4)
      requires SlotsFor(was, id)
      modifies ids, empty, this`count
      ensures SlotsOk()
      ensures count == old(count) + One(LineFull(stored.Keys, id / 4))
    {
      forall n: nat | n != id / 4
        ensures Occupies(stored.Keys, n) == Occupies(was, n)
        ensures Occupies(was, n) ==> Slot(n) != slot
      {
        OtherLines(was, id, n);
        assert Slot(n) == slot ==> SameSlot(n, id / 4);
      }
      assert LineTouched(stored.Keys, id / 4) by {
        assert id == 4 * (id / 4) + id % 4;
      }
      hide LineTouched, LineFull, Accepts;
      if line & 0x0F == 0x0F {
        ids[slot] := 0;
        empty[slot] := true;
        count := count + 1;
      }
    }

    /** What the slot says of the other lines. */
    lemma SlotTells(id: nat)
      requires Sizes() && SlotsOk() && id < BLOCK_MAX && id !in stored
      ensures empty[Slot(id / 4)] || ids[Slot(id / 4)] == 4 * (id / 4) <==> Accepts(stored.Keys, id)
    {
      var slot := Slot(id / 4);
      if !empty[slot] {
        assert SameSlot(ids[slot] / 4, id / 4);
      }
      hide Occupies;
      assert forall n :: SameSlot(n, id / 4) ==> Slot(n) == slot;
    }

    /** The slot of the block's line, when it is free or already the line's. */
    method Claim(id: nat, slot: nat) returns (ok: bool)
      requires Valid() && id < BLOCK_MAX && id !in stored && slot == Slot(id / 4) && Apart(Store(stored.Keys, id), expected)
      modifies ids, empty
      ensures ok <==> Accepts(stored.Keys, id)
      ensures if ok then Claimed(id) else Valid()
    {
      hide Occupies, Accepts, Consistent, PendingOk, FlashOk, WordsOk, BlocksOk, BitmapOk, Score;
      SlotTells(id);
      if empty[slot] {
        empty[slot] := false;
        ids[slot] := id - id % 4;
      }
      ok := ids[slot] == id - id % 4;
    }

    lemma ClaimedFacts(id: nat)
      requires Claimed(id)
      ensures id !in stored && Apart(stored.Keys + {id}, expected)
      ensures Consistent(stored.Keys, BLOCK_MAX) && Store(stored.Keys, id) == stored.Keys + {id}
    {
    }

    /** Everything about a taken block but its slot: the pending bytes, the flash, the bitmap, the counter. */
    method Take(id: nat, slot: nat, blk: array<byte>) returns (line: bv8)
      requires Claimed(id) && slot == Slot(id / 4) && blk.Length == BLOCK_SZ && blk != flash
      modifies pend, bitmap, flash, this`stored, this`programmed, this`count
      ensures stored == old(stored)[id := blk[..]] && stored.Keys == old(stored.Keys) + {id}
      ensures BlocksOk() && FlashOk() && PendingOk() && BitmapOk() && WordsOk() && programmed >= old(programmed) && Kept(old(flash[..]), old(programmed), flash[..])
      ensures expected % 4 != 0 && id == expected - 1 ==> Padded(expected, flash[..])
      ensures line & 0x0F == 0x0F <==> LineFull(stored.Keys, id / 4)
      ensures Consistent(stored.Keys, BLOCK_MAX)
      ensures count + One(LineFull(stored.Keys, id / 4)) == Score(stored.Keys, expected, LINES)
    {
      hide SlotsFor, Occupies, Accepts, Apart, Consistent, PendingOk, FlashOk, BlocksOk, BitmapOk, Score, LineFull, LineCells, NewWords, OwnWords,
        Gain, Due, Words, Kept, Padded;
      ghost var was, before := stored.Keys, programmed;
      ClaimedFacts(id);
      NewWordsParts(was, expected, id);
      NewWordsFresh(was, expected, id, programmed);
      StoreKeepsConsistent(was, BLOCK_MAX, id);
      ScoreDelta(was, expected, id);
      ghost var begin := flash[..];
      TakeBytes(id, slot, blk);
      ghost var mid, between := flash[..], programmed;
      line := TakeShared(id, slot, was);
      KeptThen(begin, before, mid, between, flash[..]);
      WordsAfter(was, expected, id, before, programmed);
    }

    /** The padded bytes are in a programmed word. */
    lemma PadProgrammed()
      requires WordsOk() && expected <= BLOCK_MAX
      ensures expected % 4 != 0 && expected - 1 in stored ==> PadIn(expected, programmed)
    {
      if expected % 4 != 0 && expected - 1 in stored {
        var id := expected - 1;
        Geometry(id);
        var n, d := id / 4, SharedWord(id % 4);
        assert id == 4 * n + id % 4;
        assert d < LINE_WORDS && Due(stored.Keys, expected, n, d);
        assert Word(n, d) in programmed;
        PadWord(expected);
      }
    }

    method Accept(id: nat, slot: nat, blk: array<byte>)
      requires Claimed(id) && slot == Slot(id / 4) && blk.Length == BLOCK_SZ && blk != flash
      modifies pend, ids, empty, bitmap, flash, this`stored, this`programmed, this`count
      ensures Valid() && stored == old(stored)[id := blk[..]] && programmed >= old(programmed)
    {
      hide SlotsFor, SlotsOk, Occupies, Accepts, Consistent, PendingOk, FlashOk, BlocksOk, BitmapOk, WordsOk, Score, LineFull, Kept, Padded;
      ghost var was, before, begin := stored.Keys, programmed, flash[..];
      AcceptsNew(was, id);
      PadProgrammed();
      var line := Take(id, slot, blk);
      if expected % 4 != 0 && expected - 1 in was {
        PaddedKept(expected, begin, before, flash[..]);
      }
      Release(id, slot, line, was);
    }

    /** ImgStore_StoreBlock: the map of stored blocks gains the block exactly when it is new and no other
        line occupies its slot; everything the flash, the bitmap, the slots and the counter say of the
        stored blocks still holds. */
    method StoreBlock(id: nat, blk: array?<byte>)
      requires Valid() && (blk != null ==> blk.Length == BLOCK_SZ && blk != flash)
      requires blk == null || id > BLOCK_NB || (id < BLOCK_MAX && Apart(Store(stored.Keys, id), expected))
      modifies pend, ids, empty, bitmap, flash, this`stored, this`programmed, this`count
      ensures Valid()
      ensures stored == if blk != null && id <= BLOCK_NB then Received(old(stored), id, blk[..]) else old(stored)
      ensures programmed >= old(programmed)
    {
      if blk == null || id > BLOCK_NB {
        return;
      }
      if Bit(bitmap[id / 8], id % 8) {
        return;
      } else {
        var slot := (id / 4) % (PENDING_LINE_NB - 1);
        var mine := Claim(id, slot);
        if mine {
          hide Valid, Claimed;
          Accept(id, slot, blk);
        }
      }
    }

    // ---------- IsComplete and Init ----------

    /** Only expected blocks have been stored. */
    ghost predicate Expected()
      reads this`stored, this`expected
    {
      forall id :: id in stored ==> id < expected
    }

    /** ImgStore_IsComplete: the counter is compared, which is exactly completion if none but expected blocks have
        been sent. The flash of a complete image holds its blocks. */
    method IsComplete() returns (r: bool)
      requires Valid()
      ensures r <==> Score(stored.Keys, expected, LINES) == expected
      ensures Expected() ==> count <= expected && (r <==> Complete(stored.Keys, expected))
      ensures Complete(stored.Keys, expected) ==>
        forall id, i :: 0 <= id < expected && 0 <= i < BLOCK_SZ ==> id in stored && flash[BLOCK_SZ * id + i] == stored[id][i]
      ensures Complete(stored.Keys, expected) && expected % 4 != 0 ==>
        forall p :: 210 * expected <= p < 8 * ((210 * expected + 7) / 8) && p < flash.Length ==> flash[p] == 0xFF
    {
      r := count == expected;
      if Expected() {
        CounterIsExact(stored.Keys, expected);
      }
      forall id, i | Complete(stored.Keys, expected) && 0 <= id < expected && 0 <= i < BLOCK_SZ
        ensures id in stored && WordAt(id, i) in programmed
      {
        AllDue(stored.Keys, expected, id, i);
      }
    }

    /** The flash driver: an erase of the whole bank. */
    method Erase(fails: bool)
      requires Sizes()
      modifies this`programmed, flash
      ensures !fails ==> programmed == {} && forall p :: 0 <= p < IMG_SZ ==> flash[p] == 0xFF
    {
      if !fails {
        forall p | 0 <= p < flash.Length {
          flash[p] := 0xFF;
        }
        programmed := {};
      }
    }

    method ClearBitmap()
      requires Sizes() && stored == map[]
      modifies bitmap
      ensures BitmapOk()
    {
      var i := 0;
      while i < BITMAP_SZ
        invariant 0 <= i <= BITMAP_SZ
        invariant forall j :: 0 <= j < i ==> bitmap[j] == 0
      {
        bitmap[i] := 0;
        i := i + 1;
      }
      forall j | 0 <= j < 8
        ensures !Bit(0, j)
      {
        SetBit(0, 0, j);
      }
    }

    method ClearPending()
      requires Sizes() && stored == map[]
      modifies pend, ids, empty
      ensures SlotsOk()
    {
      var i := 0;
      while i < PENDING_LINE_NB
        invariant 0 <= i <= PENDING_LINE_NB
        invariant forall s :: 0 <= s < i ==> empty[s] && ids[s] == 0
      {
        empty[i] := true;
        ids[i] := 0;
        forall c | 0 <= c < PENDING_BYTES {
          pend[i, c] := 0;
        }
        i := i + 1;
      }
    }

    /** The structure is cleared, once the flash has been erased. */
    method Clear(nbExpected: nat)
      requires Sizes() && programmed == {}
      modifies this`expected, this`count, this`stored, pend, ids, empty, bitmap
      ensures stored == map[] && expected == nbExpected
      ensures nbExpected <= BLOCK_MAX ==> Valid()
    {
      hide SlotsOk, BitmapOk, Score;
      count := 0;
      stored := map[];
      ClearBitmap();
      ClearPending();
      expected := nbExpected;
      assert stored.Keys == {};
      EmptyScore(expected, LINES);
    }

    /** ImgStore_Init: an empty image of nbExpected blocks, when none is in progress. The test lets 809
        through, one more block than the bitmap has bits. */
    method Init(nbExpected: nat, eraseFails: bool) returns (ret: int)
      requires Sizes()
      modifies this, pend, ids, empty, bitmap, flash
      ensures ret == if nbExpected > BLOCK_NB || !old(idle) then 1 else if eraseFails then -1 else 0
      ensures idle == old(idle)
      ensures ret == 1 ==> unchanged(this, pend, ids, empty, bitmap, flash)
      ensures ret == 1 && old(Valid()) ==> Valid()
      ensures ret == -1 ==> unchanged(pend, ids, empty, bitmap) && unchanged(`stored, `expected, `count)
      ensures ret == 0 ==> stored == map[] && programmed == {} && expected == nbExpected
      ensures ret == 0 ==> forall p :: 0 <= p < IMG_SZ ==> flash[p] == 0xFF
      ensures ret == 0 && nbExpected <= BLOCK_MAX ==> Valid()
    {
      hide Valid;
      if nbExpected > BLOCK_NB || !idle {
        return 1;
      }
      Erase(eraseFails);
      if eraseFails {
        return -1;
      }
      Clear(nbExpected);
      return 0;
    }
  }

  /** The bytes of the words programmed so far are what they were. */
  ghost predicate Kept(was: seq<byte>, programmed: set<nat>, now: seq<byte>) {
    |now| == |was| && forall p :: 0 <= p < |was| && p / 8 in programmed ==> now[p] == was[p]
  }

  lemma KeptSame(was: seq<byte>, programmed: set<nat>)
    ensures Kept(was, programmed, was)
  {
  }

  lemma KeptThen(was: seq<byte>, before: set<nat>, mid: seq<byte>, between: set<nat>, now: seq<byte>)
    requires before <= between && Kept(was, before, mid) && Kept(mid, between, now)
    ensures Kept(was, before, now)
  {
  }

  /** From the end of the expected blocks to the end of that double word. */
  ghost predicate InPad(expected: nat, p: int) {
    BLOCK_SZ * expected <= p < 8 * ((BLOCK_SZ * expected + 7) / 8)
  }

  ghost predicate Padded(expected: nat, flash: seq<byte>) {
    forall p :: 0 <= p < |flash| && InPad(expected, p) ==> flash[p] == 0xFF
  }

  ghost predicate PadIn(expected: nat, programmed: set<nat>) {
    forall p :: InPad(expected, p) ==> p / 8 in programmed
  }

  lemma PaddedKept(expected: nat, was: seq<byte>, programmed: set<nat>, now: seq<byte>)
    requires Padded(expected, was) && Kept(was, programmed, now) && PadIn(expected, programmed)
    ensures Padded(expected, now)
  {
  }

  /** The padded bytes are the last ones of the shared word behind the last block. */
  lemma PadWord(expected: nat)
    requires expected % 4 != 0
    ensures var id := expected - 1;
      forall p :: InPad(expected, p) ==>
        p / 8 == Word(id / 4, SharedWord(id % 4))
  {
    var id := expected - 1;
    Geometry(id);
    var a := BLOCK_SZ * id + BLOCK_SZ - EndPad(id % 4);
    assert a == 8 * Word(id / 4, SharedWord(id % 4)) && BLOCK_SZ * expected == a + EndPad(id % 4) && 0 < EndPad(id % 4) < 8;
  }

  lemma PaddedFrom(expected: nat, flash: seq<byte>, addr: nat, from: nat)
    requires addr % 8 == 0 && 0 < from < 8 && addr + from == BLOCK_SZ * expected && addr + 8 <= |flash|
    requires forall p :: addr + from <= p < addr + 8 ==> flash[p] == 0xFF
    ensures Padded(expected, flash)
  {
  }

  /** The padded cells, after the end of the last block, are those of no stored block. */
  lemma LastCells(stored: set<nat>, expected: nat, id: nat, m: nat, j: nat, b: nat)
    requires Consistent(stored, BLOCK_MAX) && id in stored && id + 1 == expected && expected % 4 != 0 && Apart(stored, expected)
    requires (Occupies(stored, m) || m == id / 4) && j < 3 && b < 8 && CellBlock(m, j, b) in stored
    ensures id % 4 < 3
    ensures Slot(m) == Slot(id / 4) && j == id % 4 ==> b < EndPad(id % 4)
  {
    assert id == 4 * (id / 4) + id % 4;
    assert Occupies(stored, id / 4);
    assert Slot(m) == Slot(id / 4) ==> SameSlot(m, id / 4);
  }

  /** Where a cell of a begun line comes from once block id has been entered. */
  lemma EnteredCell(stored: set<nat>, id: nat, n: nat, k: nat, b: nat)
    requires Accepts(stored, id) && k < 3 && b < 8
    requires (Occupies(stored + {id}, n) || n == id / 4) && CellBlock(n, k, b) in stored + {id}
    ensures CellBlock(n, k, b) == id ==> Slot(n) == Slot(id / 4) && n == id / 4 && CellBlock(id / 4, k, b) == 4 * (id / 4) + id % 4
    ensures CellBlock(n, k, b) != id ==> CellBlock(n, k, b) in stored && Occupies(stored, n)
    ensures CellBlock(n, k, b) != id && Slot(n) == Slot(id / 4) ==> n == id / 4
    ensures 4 * (id / 4) + id % 4 == id
  {
    assert id == 4 * (id / 4) + id % 4;
    if n != id / 4 {
      OtherLines(stored, id, n);
      assert !SameSlot(n, id / 4);
    }
  }

  lemma BlockWord(id: nat, i: nat)
    requires i < BLOCK_SZ
    ensures var d := (BLOCK_SZ * (id % 4) + i) / 8;
      d < LINE_WORDS && WordAt(id, i) == Word(id / 4, d)
  {
    assert id == 4 * (id / 4) + id % 4;
  }

  /** No word of a block that is not stored is due. */
  lemma NotYetDue(stored: set<nat>, expected: nat, id: nat, i: nat)
    requires i < BLOCK_SZ && id !in stored && Apart(stored + {id}, expected)
    ensures var d := (BLOCK_SZ * (id % 4) + i) / 8;
      d < LINE_WORDS && WordAt(id, i) == Word(id / 4, d) && !Due(stored, expected, id / 4, d)
  {
    BlockWord(id, i);
    assert id == 4 * (id / 4) + id % 4;
  }

  lemma AcceptsNew(stored: set<nat>, id: nat)
    requires Accepts(stored, id)
    ensures id !in stored
  {
  }

  /** The keys after storing id, line by line. */
  lemma KeysAfter(stored: map<nat, seq<byte>>, id: nat, blk: seq<byte>)
    ensures stored[id := blk].Keys == stored.Keys + {id}
  {
  }

  /** The stored blocks once a block has been received. */
  ghost function Received(stored: map<nat, seq<byte>>, id: nat, blk: seq<byte>): map<nat, seq<byte>> {
    if Accepts(stored.Keys, id) then stored[id := blk] else stored
  }

  /** A whole run of blocks. */
  ghost function ReceivedAll(stored: map<nat, seq<byte>>, run: seq<(nat, seq<byte>)>): map<nat, seq<byte>>
    decreases |run|
  {
    if run == [] then stored else ReceivedAll(Received(stored, run[0].0, run[0].1), run[1..])
  }

  function Ids(run: seq<(nat, seq<byte>)>): (ids: seq<nat>)
    ensures |ids| == |run|
    ensures forall k :: 0 <= k < |run| ==> ids[k] == run[k].0
  {
    if run == [] then [] else [run[0].0] + Ids(run[1..])
  }

  /** In a run whose blocks all come from one image, in any order and with any losses and repetitions, the
      stored blocks are the image's, and which ones are stored is the run of the ids alone. */
  lemma {:induction false} RunStoresTheImage(stored: map<nat, seq<byte>>, run: seq<(nat, seq<byte>)>, image: seq<seq<byte>>)
    requires forall id :: id in stored ==> id < |image| && stored[id] == image[id]
    requires forall k :: 0 <= k < |run| ==> run[k].0 < |image| && run[k].1 == image[run[k].0]
    ensures var after := ReceivedAll(stored, run);
      && after.Keys == StoreAll(stored.Keys, Ids(run))
      && (forall id :: id in after ==> id < |image| && after[id] == image[id])
    decreases |run|
  {
    if run != [] {
      var next := Received(stored, run[0].0, run[0].1);
      assert next.Keys == Store(stored.Keys, run[0].0);
      RunStoresTheImage(next, run[1..], image);
      assert Ids(run)[1..] == Ids(run[1..]);
    }
  }

  /** Every word of a complete image is due, blocks behind it or not. */
  lemma AllDue(stored: set<nat>, expected: nat, id: nat, i: nat)
    requires Complete(stored, expected) && id < expected && i < BLOCK_SZ
    ensures var d := (BLOCK_SZ * (id % 4) + i) / 8;
      d < LINE_WORDS && WordAt(id, i) == Word(id / 4, d) && Due(stored, expected, id / 4, d)
  {
    BlockWord(id, i);
    assert id == 4 * (id / 4) + id % 4;
  }

  lemma {:induction false} EmptyScore(expected: nat, lines: nat)
    ensures Score({}, expected, lines) == 0
  {
    if lines > 0 {
      EmptyScore(expected, lines - 1);
    }
  }

  // ---------- geometry ----------

  lemma Geometry(id: nat)
    ensures var n, k := id / 4, id % 4;
      && BLOCK_SZ * id + StartPad(k) == 8 * Word(n, OwnWord(k))
      && (k < 3 ==> BLOCK_SZ * id + BLOCK_SZ - EndPad(k) == 8 * Word(n, SharedWord(k)))
      && (k > 0 ==> BLOCK_SZ * id + StartPad(k) == 8 * Word(n, SharedWord(k - 1)) + 8)
      && (BLOCK_SZ - StartPad(k) - EndPad(k)) % 8 == 0
  {
    assert id == 4 * (id / 4) + id % 4;
  }

  lemma OwnGeometry(id: nat, address: nat, size: nat)
    requires id < BLOCK_MAX && address == BLOCK_SZ * id + StartPad(id % 4)
    requires size == (BLOCK_SZ - StartPad(id % 4) - EndPad(id % 4)) / 8
    ensures address % 8 == 0 && StartPad(id % 4) + 8 * size <= BLOCK_SZ && address + 8 * size <= IMG_SZ
    ensures OwnWords(id) == Words(address / 8, size)
  {
    Geometry(id);
    assert address / 8 == Word(id / 4, OwnWord(id % 4));
  }

  /** The block and byte at offset b of a shared word are the only ones at that address. */
  lemma SharedBytes(n: nat, k: nat, id: nat, i: nat)
    requires k < 3 && i < BLOCK_SZ
    requires 8 * Word(n, SharedWord(k)) <= BLOCK_SZ * id + i < 8 * Word(n, SharedWord(k)) + 8
    ensures var b := BLOCK_SZ * id + i - 8 * Word(n, SharedWord(k));
      id == CellBlock(n, k, b) && i == CellByte(k, b)
  {
  }

  lemma InImage(id: nat)
    requires id < BLOCK_MAX
    ensures BLOCK_SZ * id + BLOCK_SZ + 8 <= IMG_SZ
  {
  }

  /** The shared words that are complete once id is stored. */
  ghost function PairWords(stored: set<nat>, id: nat): set<nat> {
    var n, k := id / 4, id % 4;
    (if k < 3 && id + 1 in stored then {Word(n, SharedWord(k))} else {})
    + (if k > 0 && id - 1 in stored then {Word(n, SharedWord(k - 1))} else {})
  }

  /** The padded word of a partial last line. */
  ghost function LastWord(expected: nat, id: nat): set<nat> {
    if id % 4 < 3 && expected % 4 != 0 && id + 1 == expected then {Word(id / 4, SharedWord(id % 4))} else {}
  }

  /** The words that storing block id programs. */
  ghost function NewWords(stored: set<nat>, expected: nat, id: nat): set<nat> {
    var n, k := id / 4, id % 4;
    OwnWords(id)
    + (if k < 3 && id + 1 in stored then {Word(n, SharedWord(k))} else {})
    + (if k > 0 && id - 1 in stored then {Word(n, SharedWord(k - 1))} else {})
    + LastWord(expected, id)
  }

  /** The words that block id fills on its own. */
  ghost function OwnWords(id: nat): set<nat> {
    Words(Word(id / 4, OwnWord(id % 4)), (BLOCK_SZ - StartPad(id % 4) - EndPad(id % 4)) / 8)
  }

  lemma NewWordsParts(stored: set<nat>, expected: nat, id: nat)
    ensures NewWords(stored, expected, id) - OwnWords(id) == PairWords(stored + {id}, id) + LastWord(expected, id)
    ensures Apart(stored + {id}, expected) ==> PairWords(stored + {id}, id) !! LastWord(expected, id)
    ensures OwnWords(id) <= NewWords(stored, expected, id)
  {
    hide Words;
    assert id == 4 * (id / 4) + id % 4;
  }

  /** Double word d of the block's own line is new. */
  predicate NewInLine(stored: set<nat>, expected: nat, id: nat, d: nat) {
    var k := id % 4;
    || OwnWord(k) <= d < OwnWord(k) + (BLOCK_SZ - StartPad(k) - EndPad(k)) / 8
    || (k < 3 && d == SharedWord(k) && (id + 1 in stored || (expected % 4 != 0 && id + 1 == expected)))
    || (k > 0 && d == SharedWord(k - 1) && id - 1 in stored)
  }

  lemma NewWordsOfLine(stored: set<nat>, expected: nat, id: nat, d: nat)
    requires d < LINE_WORDS
    ensures Word(id / 4, d) in NewWords(stored, expected, id) <==> NewInLine(stored, expected, id, d)
  {
  }

  lemma NewWordsElsewhere(stored: set<nat>, expected: nat, id: nat, n: nat, d: nat)
    requires d < LINE_WORDS && n != id / 4
    ensures Word(n, d) !in NewWords(stored, expected, id)
  {
    var k := id % 4;
    assert OwnWord(k) + (BLOCK_SZ - StartPad(k) - EndPad(k)) / 8 <= LINE_WORDS;
  }

  lemma DueInLine(stored: set<nat>, expected: nat, id: nat, d: nat)
    requires d < LINE_WORDS && id !in stored && Apart(stored + {id}, expected)
    ensures Due(stored + {id}, expected, id / 4, d) <==>
      Due(stored, expected, id / 4, d) || NewInLine(stored, expected, id, d)
    ensures Due(stored, expected, id / 4, d) ==> !NewInLine(stored, expected, id, d)
  {
    assert id == 4 * (id / 4) + id % 4;
  }

  /** Programming exactly the new words of a block keeps the set of programmed words the due one. */
  lemma DueAfter(stored: set<nat>, expected: nat, id: nat, n: nat, d: nat)
    requires d < LINE_WORDS && id !in stored && Apart(stored + {id}, expected)
    ensures Due(stored + {id}, expected, n, d) <==>
      Due(stored, expected, n, d) || Word(n, d) in NewWords(stored, expected, id)
    ensures Due(stored, expected, n, d) ==> Word(n, d) !in NewWords(stored, expected, id)
  {
    hide NewWords, NewInLine, Due;
    if n == id / 4 {
      NewWordsOfLine(stored, expected, id, d);
      DueInLine(stored, expected, id, d);
    } else {
      NewWordsElsewhere(stored, expected, id, n, d);
      OtherLineDue(stored, expected, id, n, d);
    }
  }

  lemma OtherLineDue(stored: set<nat>, expected: nat, id: nat, n: nat, d: nat)
    requires d < LINE_WORDS && n != id / 4
    ensures Due(stored + {id}, expected, n, d) == Due(stored, expected, n, d)
  {
  }

  /** The increments of u32NbBlk before the test for a full line. */
  function Gain(stored: set<nat>, expected: nat, id: nat): nat {
    One(id % 4 < 3 && id + 1 in stored) + One(id % 4 > 0 && id - 1 in stored) + One(expected % 4 != 0 && id == expected - 1)
  }

  /** What the four increments of u32NbBlk amount to. */
  lemma ScoreDelta(stored: set<nat>, expected: nat, id: nat)
    requires id !in stored && id < BLOCK_MAX
    ensures Score(stored + {id}, expected, LINES)
      == Score(stored, expected, LINES) + Gain(stored, expected, id) + One(LineFull(stored + {id}, id / 4))
  {
    ScoreAfter(stored, expected, LINES, id);
    assert id == 4 * (id / 4) + id % 4;
  }

  /** The new words are new. */
  lemma NewWordsFresh(stored: set<nat>, expected: nat, id: nat, programmed: set<nat>)
    requires id !in stored && Apart(stored + {id}, expected)
    requires forall n, d :: 0 <= n && 0 <= d < LINE_WORDS ==> (Word(n, d) in programmed <==> Due(stored, expected, n, d))
    ensures NewWords(stored, expected, id) !! programmed
  {
    forall w | w in programmed
      ensures w !in NewWords(stored, expected, id)
    {
      var n, d: nat := w / LINE_WORDS, w % LINE_WORDS;
      assert w == Word(n, d);
      DueAfter(stored, expected, id, n, d);
    }
  }

  /** The padded word, when the second of the two blocks that share it is stored. */
  lemma PaddingAgain(stored: set<nat>, expected: nat, id: nat, programmed: set<nat>)
    requires id !in stored && Apart(stored, expected) && !Apart(stored + {id}, expected)
    requires forall n, d :: 0 <= n && 0 <= d < LINE_WORDS ==> (Word(n, d) in programmed <==> Due(stored, expected, n, d))
    ensures !(NewWords(stored, expected, id) !! programmed) || !(PairWords(stored + {id}, id) !! LastWord(expected, id))
  {
    hide Words, Word, OwnWords;
    var last := expected - 1;
    assert last == 4 * (last / 4) + last % 4 && expected / 4 == last / 4 && expected % 4 == last % 4 + 1;
    var w := Word(last / 4, SharedWord(last % 4));
    assert SharedWord(last % 4) < LINE_WORDS;
    if id == expected {
      assert w in NewWords(stored, expected, id);
      assert Due(stored, expected, last / 4, SharedWord(last % 4));
      assert w in programmed;
    } else {
      assert w in PairWords(stored + {id}, id) && w in LastWord(expected, id);
    }
  }

  /** Storing a block programs a word twice exactly when it is the second of the two that share the padded word. */
  lemma PaddedTwice(stored: set<nat>, expected: nat, id: nat, programmed: set<nat>)
    requires id !in stored && Apart(stored, expected)
    requires forall n, d :: 0 <= n && 0 <= d < LINE_WORDS ==> (Word(n, d) in programmed <==> Due(stored, expected, n, d))
    ensures NewWords(stored, expected, id) !! programmed && PairWords(stored + {id}, id) !! LastWord(expected, id)
      <==> Apart(stored + {id}, expected)
  {
    hide NewWords, PairWords, LastWord, Due, Apart;
    if Apart(stored + {id}, expected) {
      NewWordsFresh(stored, expected, id, programmed);
      NewWordsParts(stored, expected, id);
    } else {
      PaddingAgain(stored, expected, id, programmed);
    }
  }

  lemma WordsAfter(stored: set<nat>, expected: nat, id: nat, programmed: set<nat>, after: set<nat>)
    requires id !in stored && Apart(stored + {id}, expected)
    requires forall n, d :: 0 <= n && 0 <= d < LINE_WORDS ==> (Word(n, d) in programmed <==> Due(stored, expected, n, d))
    requires after == programmed + NewWords(stored, expected, id)
    ensures forall n, d :: 0 <= n && 0 <= d < LINE_WORDS ==> (Word(n, d) in after <==> Due(stored + {id}, expected, n, d))
  {
    forall n, d | 0 <= n && 0 <= d < LINE_WORDS
      ensures Word(n, d) in after <==> Due(stored + {id}, expected, n, d)
    {
      DueAfter(stored, expected, id, n, d);
    }
  }

  /** The n double words from w on. */
  ghost function Words(w: nat, n: nat): (r: set<nat>)
    ensures forall v :: v in r <==> w <= v < w + n
  {
    if n == 0 then {} else Words(w, n - 1) + {w + n - 1}
  }

  // ---------- an input that fools the counter ----------

  lemma {:induction false} LineOfFour(lines: nat)
    ensures Score({4, 5, 6, 7}, 4, lines) == if lines > 1 then 4 else 0
  {
    if lines > 0 {
      LineOfFour(lines - 1);
      assert LineScore({4, 5, 6, 7}, 4, lines - 1) == if lines == 2 then 4 else 0;
    }
  }

  /** Blocks of one begun line do not shut each other out. */
  lemma OneLine(stored: set<nat>, id: nat)
    requires id !in stored && forall i :: i in stored ==> i / 4 == id / 4
    ensures Store(stored, id) == stored + {id}
  {
    forall n: nat | Occupies(stored, n)
      ensures n == id / 4
    {
    }
  }

  /** Four blocks are expected, and four others come: the image passes for complete, without one block of it. */
  method ForeignLine(c: Context, blk: array<byte>) returns (r: bool)
    requires c.Sizes() && c.idle && blk.Length == BLOCK_SZ && blk != c.flash
    modifies c, c.pend, c.ids, c.empty, c.bitmap, c.flash
    ensures c.Valid() && c.expected == 4 && c.stored.Keys == {4, 5, 6, 7} && r && !Complete(c.stored.Keys, 4)
  {
    hide Context.Valid, Score, Store, Accepts;
    var ret := c.Init(4, false);
    var id := 4;
    while id < 8
      invariant 4 <= id <= 8 && c.Valid() && c.expected == 4
      invariant c.stored.Keys == Below(id) - Below(4)
    {
      OneLine(c.stored.Keys, id);
      StoredKeys(c.stored, id, blk[..]);
      c.StoreBlock(id, blk);
      id := id + 1;
    }
    assert c.stored.Keys == {4, 5, 6, 7};
    LineOfFour(LINES);
    r := c.IsComplete();
    assert 0 !in c.stored.Keys;
  }

  lemma StoredKeys(stored: map<nat, seq<byte>>, id: nat, blk: seq<byte>)
    ensures Received(stored, id, blk).Keys == Store(stored.Keys, id)
  {
  }
}
