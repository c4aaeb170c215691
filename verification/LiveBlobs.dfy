/** The blobs with live references and their bytes: what one deletion frees at most. */
module LiveBlobs {
  import opened DurableStores
  import opened ObjectModel
  import Sums

  ghost function SizeOf(c: Codec): Hash -> nat {
    b => c.sizeOf(b)
  }

  ghost function Live(refs: map<Hash, BlobRef>): set<Hash> {
    set b | b in refs && CountOf(refs, b) > 0
  }

  lemma BytesOfLive(c: Codec, refs: map<Hash, BlobRef>)
    requires forall b :: b in refs ==> refs[b].size == c.sizeOf(b)
    ensures LiveBytes(refs) == Sums.Sum(Live(refs), SizeOf(c))
  {
    var live, dead := Live(refs), refs.Keys - Live(refs);
    Sums.Union(live, dead, LiveSize(refs));
    assert live + dead == refs.Keys;
    Sums.Zero(dead, LiveSize(refs));
    Sums.Congruent(live, LiveSize(refs), SizeOf(c));
  }

  /** The clean-up after a commit, wherever it stops, changes no live bytes. */
  lemma SweepKeepsBytes(c: Codec, s: Store, s': Store, h: Hash)
    requires Covered(c, s) && PartlySwept(c, s, s', h)
    ensures LiveBytes(s'.refs) == LiveBytes(s.refs)
  {
    forall b | b in s.refs && b !in s'.refs ensures b in DeadBlobs(c, s, h) {
      assert b in s.refs.Keys - s'.refs.Keys;
    }
    BytesOfLive(c, s.refs);
    BytesOfLive(c, s'.refs);
    assert Live(s'.refs) == Live(s.refs);
  }

  lemma MoreIsMore(s: set<Hash>, t: set<Hash>, size: Hash -> nat)
    requires s <= t
    ensures Sums.Sum(s, size) <= Sums.Sum(t, size)
  {
    Sums.Union(s, t - s, size);
    assert s + (t - s) == t;
  }

  lemma AddGap(less: set<Hash>, gap: set<Hash>, extra: set<Hash>, size: Hash -> nat)
    requires less !! gap && gap <= extra
    ensures Sums.Sum(less, size) <= Sums.Sum(less + gap, size) <= Sums.Sum(less, size) + Sums.Sum(extra, size)
  {
    Sums.Union(less, gap, size);
    MoreIsMore(gap, extra, size);
  }

  lemma AddAtMost(less: set<Hash>, more: set<Hash>, extra: set<Hash>, size: Hash -> nat)
    requires less <= more <= less + extra
    ensures Sums.Sum(less, size) <= Sums.Sum(more, size) <= Sums.Sum(less, size) + Sums.Sum(extra, size)
  {
    var gap := more - less;
    assert less + gap == more;
    AddGap(less, gap, extra, size);
  }

  lemma LiveAfterDelete(c: Codec, s: Store, id: VersionId)
    requires CanDelete(c, s, id)
    ensures var refs := DeleteRow(c, s, id).refs; Live(refs) <= Live(s.refs) <= Live(refs) + BlobsOf(c.treeOf(s.versions[id].tree))
  {
  }

  /** A deletion frees at most the payload of the tree, which is what `DeleteVersion` estimates. */
  lemma FreedAtMostPayload(c: Codec, s: Store, s': Store, id: VersionId)
    requires Healthy(c, s) && CanDelete(c, s, id) && PartlySwept(c, DeleteRow(c, s, id), s', s.versions[id].tree)
    ensures LiveBytes(s'.refs) <= LiveBytes(s.refs) <= LiveBytes(s'.refs) + PayloadOf(c, s.versions[id].tree)
  {
    var h, s1 := s.versions[id].tree, DeleteRow(c, s, id);
    DeleteRowKeeps(c, s, id);
    SweepKeepsBytes(c, s1, s', h);
    BytesOfLive(c, s.refs);
    BytesOfLive(c, s1.refs);
    LiveAfterDelete(c, s, id);
    AddAtMost(Live(s1.refs), Live(s.refs), BlobsOf(c.treeOf(h)), SizeOf(c));
    Sums.Congruent(BlobsOf(c.treeOf(h)), SizeOf(c), b => c.sizeOf(b));
  }
}
