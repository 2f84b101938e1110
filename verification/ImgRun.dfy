/** Whole downloads: an image is begun, blocks arrive in any order, and the store says whether it is there. */
module ImgRun {
  import opened Bytes
  import opened ImgLayout
  import opened ImgRecovery
  import opened ImgStore

  /** The identifiers 0..n-1 in order. */
  function UpTo(n: nat): (ids: seq<nat>)
    ensures |ids| == n && forall k :: 0 <= k < n ==> ids[k] == k
  {
    seq(n, k requires 0 <= k < n => k)
  }

  lemma {:induction false} StoreAllConcat(stored: set<nat>, a: seq<nat>, b: seq<nat>)
    ensures StoreAll(stored, a + b) == StoreAll(StoreAll(stored, a), b)
    decreases |a|
  {
    hide Store;
    if a == [] {
      assert a + b == b;
    } else {
      StoreAllConcat(Store(stored, a[0]), a[1..], b);
      assert (a + b)[1..] == a[1..] + b;
    }
  }

  lemma StoreAllMore(stored: set<nat>, a: seq<nat>, id: nat)
    ensures StoreAll(stored, a + [id]) == Store(StoreAll(stored, a), id)
  {
    hide Store;
    StoreAllConcat(stored, a, [id]);
    assert [id][1..] == [];
  }

  /** A pass over all identifiers is a run of StoreBlock. */
  lemma {:induction false} PassIsRun(stored: set<nat>, n: nat)
    ensures Ascending(stored, n) == StoreAll(stored, UpTo(n))
  {
    hide Store;
    if n > 0 {
      PassIsRun(stored, n - 1);
      StoreAllMore(stored, UpTo(n - 1), n - 1);
      assert UpTo(n) == UpTo(n - 1) + [n - 1];
    }
  }

  /** After any run at all, two passes complete the image, unless a partial last line shuts another out. */
  lemma TwoPassesOfRun(expected: nat, ids: seq<nat>)
    requires forall k :: 0 <= k < |ids| ==> ids[k] < expected
    ensures Complete(StoreAll({}, ids + UpTo(expected) + UpTo(expected)), expected) <==> !ShutOut(StoreAll({}, ids), expected)
    ensures expected % 4 == 0 ==> Complete(StoreAll({}, ids + UpTo(expected) + UpTo(expected)), expected)
  {
    hide Store, ShutOut, Complete;
    var s := StoreAll({}, ids);
    RunKeepsConsistent({}, expected, ids);
    StoreAllConcat({}, ids, UpTo(expected));
    StoreAllConcat({}, ids + UpTo(expected), UpTo(expected));
    PassIsRun(s, expected);
    PassIsRun(Ascending(s, expected), expected);
    TwoPasses(s, expected);
    if expected % 4 == 0 {
      TwoPassesSuffice(s, expected);
    }
  }

  /** What is stored are blocks of the image. */
  ghost predicate OfImage(stored: map<nat, seq<byte>>, image: seq<seq<byte>>) {
    forall id :: id in stored ==> id < |image| && stored[id] == image[id]
  }

  lemma ReceivedOfImage(stored: map<nat, seq<byte>>, image: seq<seq<byte>>, id: nat)
    requires OfImage(stored, image) && id < |image|
    ensures OfImage(Received(stored, id, image[id]), image)
    ensures Received(stored, id, image[id]).Keys == Store(stored.Keys, id)
  {
  }

  /** The blocks of the image, in the order of the identifiers given. */
  method Feed(c: Context, image: seq<seq<byte>>, order: seq<nat>)
    requires c.Valid() && c.expected == |image| <= BLOCK_MAX && c.stored == map[]
    requires forall id {:trigger image[id]} :: 0 <= id < |image| ==> |image[id]| == BLOCK_SZ
    requires forall k {:trigger order[k]} :: 0 <= k < |order| ==> order[k] < |image|
    modifies c`stored, c`programmed, c`count, c.pend, c.ids, c.empty, c.bitmap, c.flash
    ensures c.Valid() && OfImage(c.stored, image) && c.stored.Keys == StoreAll({}, order)
  {
    hide Context.Valid, OfImage, Store, Received;
    NothingOfImage(c.stored, image);
    for k := 0 to |order|
      invariant c.Valid() && OfImage(c.stored, image) && c.stored.Keys == StoreAll({}, order[..k])
    {
      var id := order[k];
      var blk := new byte[BLOCK_SZ](i requires 0 <= i < BLOCK_SZ => image[id][i]);
      assert blk[..] == image[id];
      ReceivedOfImage(c.stored, image, id);
      StoreAllMore({}, order[..k], id);
      assert order[..k + 1] == order[..k] + [id];
      c.StoreBlock(id, blk);
    }
    assert order[..|order|] == order;
  }

  lemma NothingOfImage(stored: map<nat, seq<byte>>, image: seq<seq<byte>>)
    requires stored == map[]
    ensures OfImage(stored, image) && stored.Keys == {}
  {
  }

  /** A whole download, from ImgStore_Init to ImgStore_IsComplete: the answer is yes exactly when every block has
      found its slot, and then the flash is the image, byte for byte. */
  method Download(c: Context, image: seq<seq<byte>>, order: seq<nat>) returns (ok: bool)
    requires c.Sizes() && c.idle && |image| <= BLOCK_MAX
    requires forall id {:trigger image[id]} :: 0 <= id < |image| ==> |image[id]| == BLOCK_SZ
    requires forall k {:trigger order[k]} :: 0 <= k < |order| ==> order[k] < |image|
    modifies c, c.pend, c.ids, c.empty, c.bitmap, c.flash
    ensures ok <==> Complete(StoreAll({}, order), |image|)
    ensures ok ==> forall id, i :: 0 <= id < |image| && 0 <= i < BLOCK_SZ ==> c.flash[BLOCK_SZ * id + i] == image[id][i]
    ensures |image| % 4 == 0 && (exists ids {:trigger ids + UpTo(|image|)} :: order == ids + UpTo(|image|) + UpTo(|image|)) ==> ok
  {
    hide Context.Valid, OfImage, StoreAll;
    var ret := c.Init(|image|, false);
    Feed(c, image, order);
    FlashOfImage(c, image);
    ok := c.IsComplete();
    forall id, i | ok && 0 <= id < |image| && 0 <= i < BLOCK_SZ
      ensures c.flash[BLOCK_SZ * id + i] == image[id][i]
    {
      assert id in c.stored.Keys;
      assert c.flash[BLOCK_SZ * id + i] == c.stored[id][i];
    }
    if |image| % 4 == 0 && exists ids {:trigger ids + UpTo(|image|)} :: order == ids + UpTo(|image|) + UpTo(|image|) {
      var ids {:trigger ids + UpTo(|image|)} :| order == ids + UpTo(|image|) + UpTo(|image|);
      assert forall k :: 0 <= k < |ids| ==> ids[k] == order[k];
      TwoPassesOfRun(|image|, ids);
    }
  }

  lemma FlashOfImage(c: Context, image: seq<seq<byte>>)
    requires OfImage(c.stored, image)
    ensures forall id :: id in c.stored ==> id < |image| && c.stored[id] == image[id]
  {
  }
}
