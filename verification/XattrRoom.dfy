/** What the total that a node keeps for its attributes promises about their area in the image. */
module XattrRoom {
  import opened Common
  import opened Bytes
  import opened Xattrs
  import opened XattrArea
  import opened SharedXattrs
  import opened NodeXattrs
  import opened NodeAttrs
  import opened Escaping

  lemma {:induction false} EntryCharge(x: Xattr)
    ensures EntrySize(Store(x)) <= Charge(x)
  {
    var n := EntryLength(Store(x));
    assert RoundUp(n, 4) < n + 4;
  }

  lemma {:induction false} PartsCharge(xs: seq<Xattr>, slots: seq<Option<nat>>)
    requires |slots| == |xs|
    ensures 4 * |Shared(xs, slots)| + TableSize(Unshared(xs, slots), Store) <= Charges(xs)
  {
    if xs != [] {
      var n := |xs| - 1;
      PartsCharge(xs[..n], slots[..n]);
      EntryCharge(xs[n]);
      OffsetsAppend(Unshared(xs[..n], slots[..n]), Store, xs[n], EntrySize(Store(xs[n])));
    }
  }

  lemma {:induction false} AreaBound(shared: nat, unshared: nat, charges: nat, none: bool)
    requires unshared % 4 == 0 && 4 * shared + unshared <= charges && (none ==> charges == 0)
    ensures AreaSize(shared, unshared) <= if none then 0 else 12 + charges
    ensures none || 12 + charges <= 0xffff ==> Icount(AreaSize(shared, unshared)) < 0x1_0000
  {
  }

  /** Whichever attributes are shared, the area of the node in the image is no larger than the total. */
  lemma {:induction false} TotalCoversArea(xs: seq<Xattr>, slots: seq<Option<nat>>, filter: nat, inodesEnd: nat)
    requires |slots| == |xs|
    ensures |AreaOf(xs, slots, Store, filter, inodesEnd)| <= Total(xs)
    ensures Total(xs) <= 0xffff ==> Icount(|AreaOf(xs, slots, Store, filter, inodesEnd)|) < 0x1_0000
  {
    AreaOfLength(xs, slots, Store, filter, inodesEnd);
    PartsCharge(xs, slots);
    AreaBound(|Shared(xs, slots)|, TableSize(Unshared(xs, slots), Store), Charges(xs), xs == []);
  }

  /** Escaping names is not charged, but at most doubles the total: the limit for outside input leaves room for it. */
  lemma {:induction false} EscapedTotal(xs: seq<Xattr>, ys: seq<Xattr>)
    requires |ys| == |xs|
    requires forall i {:trigger ys[i]} :: 0 <= i < |xs| ==> ys[i] == Xattr(Escape(xs[i].key), xs[i].value)
    ensures Charges(ys) <= 2 * Charges(xs) && (Total(xs) <= Limit(true) ==> Total(ys) <= 0xffff)
  {
    if xs != [] {
      var n := |xs| - 1;
      EscapedTotal(xs[..n], ys[..n]);
      assert |Escape(xs[n].key)| <= |xs[n].key| + 8;
    }
  }
}
